# Snake game engine in Dafny

This project models the game-state engine of a browser snake game, `app.js`, and proves
properties of it. The board is 40 rows of 60 tiles. The snake is a list of segments, head
first, each with a row, a column and a heading. A tile carries the `snake` CSS class
exactly when a segment stands on it. The page keeps the score, the number of tiles still
owed to the snake (`tilesToAdd`), the apple's row and column, a `started` flag and a
render interval.

Two modules:

- `Tiles` (`tiles.dfy`) covers the board and the apple's tile:
  - the board constants;
  - the class string each tile is given (`grid-tile r-R c-C`);
  - the JavaScript `indexOf`, `substring` and `parseInt` used to read a row and a column back from it;
  - the scan for tiles without the `snake` class;
  - the random choice among those tiles.
- `Snake` (`snake.dfy`) covers the game itself:
  - headings, and how one step moves a cell;
  - the key filter and the key-to-heading map;
  - the specification of a tick on the body (`Moved`, `Grown`) and its lemmas;
  - the class `Game`, holding the page's state.

How the page's state is represented in `Game`:

- The linked list becomes the field `snake: seq<Segment>`.
- The `snake` class becomes the 40×60 array `occupied`.
- The render interval becomes the flag `running`, cleared on game over.
- `Math.random()` becomes a real number `roll` in [0, 1), chosen nondeterministically inside `GenerateApple`.

The `Game` methods follow the source functions:

| Dafny method | source function |
|---|---|
| `SetupGame`, `EraseSnake`, `CreateSnake` | `setupGame`, `createSnake` |
| `GenerateApple` | `generateApple` |
| `CheckGameOver` | `checkGameOver` |
| `SetDirectionFromKey`, `ChangeDirection` | `setDirectionFromKey`, `changeDirection` |
| `Tick` | `render`/`moveSnake` |

`Tick` keeps the source's single walk from head to tail, and each pass of its loop is split over three methods:

- `MoveSegment` covers the step, the game-over check for the head, the board update and the heading swap (app.js:109-159).
- `Relocate` is the board update inside that step: the `snake` class moves, and a segment landing on the apple eats it.
- `GrowTail` covers the growth at the tail (app.js:161-180).

The ghost predicate `Game.Midway` is the loop invariant: the state after the first `i` segments have moved.

How the model reads the game:

- **A tick that does not end the game.** The body becomes `Moved(o)` or `Grown(o)`, where `o` is the body before the tick.
  - In `Moved(o)`, every segment has stepped once along its own heading. The head keeps its heading, and every other segment takes its predecessor's.
  - `Grown(o)` adds the old tail behind the moved body, unmoved and with its old heading.
  - The body grows exactly when tiles are still owed at the tail, counting the apples eaten during the walk.
- **Validity.** `Game.Valid` holds the body invariant:
  - the segments are on the board and on distinct cells;
  - `occupied` marks exactly their cells;
  - once the game has started, each segment reaches its predecessor's cell by one step along its own heading.
  
  `Game.Valid` is established by set-up and kept by every tick and every key.
- **Behaviour of `app.js` worth knowing:**
  - Any segment that lands on the apple eats it, not only the head.
  - A new apple is chosen against the occupancy in the middle of the walk, not before or after it. The tile the eating segment is moving to is therefore free, and so is the tile it just left. The new apple can land under the snake, and a later segment in the same walk can eat it again.
  - The key filter `/^[w,a,s,d]$/i` also accepts `,`. A comma changes no heading, but as the first key it still starts the game and the interval. If no w, a, s or d key arrives before the first tick, that tick ends the game, because the head stays on its own marked tile.

## Model

| member | source | states |
|---|---|---|
| Tiles.TileAt | app.js:69-76 | the tile at position t of the board's document order is on the board, and its row-major index is t |
| Tiles.Decimal | app.js:74 | a number's template-literal text is non-empty and made of decimal digits only |
| Tiles.TileClass | app.js:74 | characterised by Tiles.AppleClassRoundTrip: the row and column written into a tile's class string are the ones read back from it |
| Tiles.AppleClass | app.js:213-215 | characterised by Tiles.RowMarkAt, Tiles.ColMarkAt and Tiles.AppleClassRoundTrip: adding `apple` leaves the row and column marks where the parse finds them |
| Tiles.Substring | app.js:218-223 | `substring` with ends in order inside the string is the slice between them, with ends swapped it is the slice between them in order, and it is never longer than the string |
| Tiles.ParseInt | app.js:217-223 | characterised by Tiles.ParseDecimal: `parseInt` of a number's decimal text followed by a non-digit gives back the number |
| Tiles.ReadRow | app.js:217-222 | characterised by Tiles.RowRoundTrip: the parse expression gives back the row of an apple tile |
| Tiles.ReadCol | app.js:223 | characterised by Tiles.ColRoundTrip: the parse expression gives back the column of an apple tile |
| Tiles.IndexFrom | app.js:219-220 | `indexOf` returns -1 or a position at or after the start at which the pattern occurs |
| Tiles.IndexFromFirst | app.js:219-220 | the position `indexOf` returns is the first occurrence at or after the start, and it returns -1 exactly when the pattern does not occur there |
| Tiles.LeadingDigits | app.js:217-223 | the digit run `parseInt` reads is a prefix of its input, all digits, and is followed by a non-digit or the end |
| Tiles.DecimalValue | app.js:217-223 | the value of a number's decimal text is the number |
| Tiles.LeadingDigitsOf | app.js:217-223 | `parseInt`'s digit run over digits followed by a non-digit is exactly those digits |
| Tiles.ParseDecimal | app.js:217-223 | `parseInt` of a number's decimal text followed by a non-digit (or nothing) gives back the number |
| Tiles.IndexFromSkip | app.js:219-220 | `indexOf` may skip positions that do not hold the pattern's first character |
| Tiles.RowMarkAt | app.js:219 | in an apple tile's class string, the first "r-" is at position 10 |
| Tiles.ColMarkAt | app.js:220 | in an apple tile's class string, the first "c-" follows the row's digits and a space |
| Tiles.RowRoundTrip | app.js:217-222 | the row parsed back from the class `grid-tile r-R c-C apple` is R |
| Tiles.ColRoundTrip | app.js:223 | the column parsed back from that class string is C |
| Tiles.AppleClassRoundTrip | app.js:213-223 | reading row and column back from the class an apple tile carries gives the tile's own row and column, as written at app.js:74 |
| Tiles.FreeTilesSound | app.js:204-209 | every tile the scan collects is on the board and has no `snake` class |
| Tiles.FreeTilesComplete | app.js:204-209 | every tile on the board without the `snake` class is collected by the scan |
| Tiles.EmptyTiles | app.js:204-209 | the loop collects the uncovered tiles in document order, and a tile is collected iff it is on the board and uncovered |
| Tiles.RandIndex | app.js:210 | `floor(roll * n)` for a roll in [0, 1) is an index below n whenever n > 0 |
| Tiles.PickApple | app.js:204-211 | no tile is chosen iff every tile is covered; a chosen tile is uncovered and is the free tile at index `floor(roll * count)` |
| Snake.Step | app.js:113-126 | a segment with no heading stays put; with a heading it moves to an adjacent cell |
| Snake.Back | app.js:163-176 | the growth cell, one step against the heading, is where a step along that heading started |
| Snake.BackUndoesStep | app.js:161-177 | stepping back from a moved tail returns to the tail's pre-move cell |
| Snake.KeyAccepted | app.js:188 | the key filter accepts exactly w, a, s, d in either case and the comma |
| Snake.KeyDirection | app.js:226-241 | w/a/s/d in either case give up/left/down/right, no key gives "no heading", and of the accepted keys only the comma leaves the head alone |
| Snake.InitialSnake | app.js:81-98 | the starting list has four segments; segment j is on row 1, column 4 - j, with no heading |
| Snake.Moved | app.js:109-159 | the reference body after a tick without growth: as long as the old body, each segment given by Snake.MovedAt; characterised by Snake.MovedLinked, Snake.MovedFollows, Snake.MovedCells and Snake.MovedDistinct |
| Snake.MovedAt | app.js:110-159 | segment j after a tick stands one step along its old heading from its old cell, and takes over the heading of segment j - 1 (the head keeps its own) |
| Snake.Grown | app.js:161-181 | the reference body after a tick with growth: the moved body followed by the old tail, unmoved and with its old heading |
| Snake.Blocked | app.js:245-253 | characterised by Snake.Game.CheckGameOver and Snake.Game.Tick: the game ends exactly when the head's new cell is off the board or carries the `snake` class |
| Snake.InitialSnakeShape | app.js:81-98 | the starting snake lies on the board on four distinct cells, row 1, columns 4 to 1 |
| Snake.StartLinked | app.js:190-196 | turning every segment behind the head of the starting snake to the right links the body, whatever the head's heading |
| Snake.SameCells | app.js:187-199 | changing only headings keeps the covered cells, on-board-ness and distinctness |
| Snake.ShiftCells | app.js:137-154 | handing segment i-1's old cell to segment i leaves the covered set as the head's new cell plus the body minus segment i's old cell |
| Snake.PartialEnds | app.js:108-184 | before the walk no segment has moved; after it, the body is `Moved` |
| Snake.PartialStep | app.js:110-159 | moving segment i advances the walk's state from i to i+1 |
| Snake.MovedLinked | app.js:106-159 | a tick keeps every non-head segment one step, along its new heading, from its predecessor |
| Snake.MovedFollows | app.js:106-126 | after a move of a linked body, the head stands on its next cell and every other segment on its predecessor's old cell |
| Snake.MovedCells | app.js:137-154 | a tick without growth vacates the tail's cell and covers the head's new cell, and nothing else changes |
| Snake.MovedDistinct | app.js:106-159 | if the head moves onto a free board cell, the moved body stays on the board with distinct cells |
| Snake.GrownBody | app.js:161-183 | growth keeps the body linked, on the board and distinct, and covers the old cells plus the head's new cell |
| Snake.Game.constructor | app.js:31-32 | the first game is set up: the starting snake, no score, nothing owed, not started, ticking stopped, the apple on a free tile |
| Snake.Game.SetupGame | app.js:40-66 | a new game: exactly row 1, columns 1-4 marked, the starting snake with no headings, score 0, nothing owed, not started, the apple on an unmarked tile, the state valid |
| Snake.Game.SetUpValid | app.js:58-63 | the starting snake drawn on an empty board, with the apple on the board, is a valid state |
| Snake.Game.EraseSnake | app.js:42-52 | walking the list clears the `snake` class from every tile and drops the list |
| Snake.Game.CreateSnake | app.js:81-98 | the list becomes the starting snake, and exactly row 1, columns 1-4 gain the `snake` class |
| Snake.Game.GenerateApple | app.js:203-224 | the apple's recorded row and column name a board tile that had no `snake` class when it was chosen |
| Snake.Game.Relocate | app.js:137-154 | the `snake` class moves from the old cell to the new one; landing on the apple adds 1 to the score and 3 to the owed tiles, and places the new apple off the rest of the body; otherwise counters and apple are unchanged |
| Snake.Game.MoveSegment | app.js:109-159 | one pass of the loop advances the walk invariant `Midway` by one segment; for the head, the game ends iff its new cell is blocked, and then the head is restored and nothing else changes |
| Snake.Game.GrowTail | app.js:161-180 | growth appends the tail's pre-move cell and heading, pays off one owed tile, and leaves a valid, advanced state |
| Snake.Game.MovedDone | app.js:105-185 | a walk that reaches the end of the body without growing leaves a valid state whose body is `Moved` |
| Snake.Game.Tick | app.js:105-185 | the tick ends the game iff the head's next cell is off the board or marked before anything moves, and then the state is unchanged except that ticking stops; otherwise the state stays valid, the body is `Moved` or `Grown`, it grows iff tiles are owed once this tick's apples are counted, and the score rises iff some segment lands on the apple |
| Snake.Game.CheckGameOver | app.js:243-259 | the game is over iff the head is off the board or on a marked tile, and then ticking stops |
| Snake.Game.SetDirectionFromKey | app.js:226-241 | only the head's heading changes, to the key's heading, or not at all for any other key |
| Snake.Game.TurnBodyRight | app.js:192-196 | the walk behind the head turns every segment but the head right and changes nothing else: the head, the length and every cell stay as they were |
| Snake.Game.ChangeDirection | app.js:187-201 | an accepted key sets the head's heading; the first accepted key also turns the rest of the body right, starts the game and starts ticking; cells, score, owed tiles and apple never change, and the state stays valid |

## Left out

- Rendering and the document. These are not part of this model:
  - building the tile elements (app.js:68-79);
  - the `apple` class on tiles and the game-over menu (app.js:53-55, 65, 144-147, 255, 261-264);
  - `querySelector` as such.
  
  Only `snake` class membership is kept, as `occupied`. The apple class string is kept only as the text `generateApple` parses.
- Timer: `setInterval`/`clearInterval` and the 10 Hz cadence are the `running` flag. `Tick` requires `running` because the interval is its only caller.
- Randomness: `Math.random()` is an arbitrary real in [0, 1). Arithmetic is exact, so floating-point rounding of `roll * count` is not modelled.
- Event plumbing, `e.preventDefault`, `console.log` and the unused `TILE_WIDTH` are left out.
- Snake.Game.GenerateApple: requires a free tile. With none, `emptyTiles[randIndex]` is `undefined` and the source throws. The choice itself, `PickApple`, does return `None` in that case.
- Snake.Game.SetupGame: requires either a valid state or the empty board that exists before the first game. Those are the only two states the page calls it in.
- Tiles.ParseInt: handles ASCII white space, a sign and decimal digits. It does not handle the Unicode white space or the hexadecimal prefixes that `parseInt` also knows, none of which occur in a tile's class string.
- Tiles.IndexFrom: models `indexOf` without a start position, the only form `app.js` uses; its `k` is the search's cursor. With an explicit start beyond the end and an empty pattern, JavaScript clamps the start and returns the string's length, where `IndexFrom` returns -1.
- Snake.KeyDirection: lower-cases ASCII letters only. `toLowerCase` on other characters cannot produce w, a, s or d from a key the filter accepts.
- Snake.Game.MoveSegment, Snake.Game.Relocate, Snake.Game.GrowTail: these split the body of the source's one loop into three methods. They keep its order of effects and do not add any loop of their own.
