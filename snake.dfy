/** The snake game engine: directions and keys, the snake's body, and the game state
    with its per-tick update. */
module Snake {
  import opened Tiles

  /** Length added to the snake for every apple eaten. */
  const TILES_PER_APPLE := 3

  /** A segment's heading; `Null` until the first key press. */
  datatype Dir = Null | Up | Left | Down | Right

  /** One node of the snake's linked list, head first. */
  datatype Segment = Segment(row: int, col: int, dir: Dir) {
    function At(): Cell {
      Cell(row, col)
    }
  }

  function Abs(x: int): nat {
    if x < 0 then -x else x
  }

  /** Two cells share a side. */
  predicate Adjacent(a: Cell, b: Cell) {
    Abs(a.row - b.row) + Abs(a.col - b.col) == 1
  }

  /** Where a segment heading `d` lands after one move; without a heading it stays put. */
  function Step(c: Cell, d: Dir): (r: Cell)
    ensures d == Null <==> r == c
    ensures d != Null ==> Adjacent(c, r)
  {
    match d
    case Null => c
    case Up => Cell(c.row - 1, c.col)
    case Left => Cell(c.row, c.col - 1)
    case Down => Cell(c.row + 1, c.col)
    case Right => Cell(c.row, c.col + 1)
  }

  /** The cell a segment heading `d` came from: one step against its heading. */
  function Back(c: Cell, d: Dir): (r: Cell)
    ensures Step(r, d) == c
  {
    match d
    case Null => c
    case Up => Cell(c.row + 1, c.col)
    case Left => Cell(c.row, c.col + 1)
    case Down => Cell(c.row - 1, c.col)
    case Right => Cell(c.row, c.col - 1)
  }

  /** Stepping back undoes a step. */
  lemma BackUndoesStep(c: Cell, d: Dir)
    ensures Back(Step(c, d), d) == c
  {
  }

  // ---------------------------------------------------------------------------
  // Keys
  // ---------------------------------------------------------------------------

  function UpperChar(ch: char): char {
    if 'a' <= ch <= 'z' then (ch as int - 32) as char else ch
  }

  function LowerChar(ch: char): char {
    if 'A' <= ch <= 'Z' then (ch as int + 32) as char else ch
  }

  function LowerCase(s: string): (t: string)
    ensures |t| == |s|
  {
    seq(|s|, i requires 0 <= i < |s| => LowerChar(s[i]))
  }

  /** The key filter `/^[w,a,s,d]$/i`: a one-character key whose case-folded form is in
      the class, whose characters are w, the comma, a, s and d. */
  function KeyAccepted(key: string): (ok: bool)
    ensures ok <==> key in {"w", "a", "s", "d", "W", "A", "S", "D", ","}
  {
    assert |key| == 1 ==> key == [key[0]];
    |key| == 1 &&
    var u := UpperChar(key[0]);
    u == 'W' || u == ',' || u == 'A' || u == 'S' || u == 'D'
  }

  /** The heading a key gives the head after lower-casing it; `None` leaves the head alone. */
  function KeyDirection(key: string): (d: Option<Dir>)
    ensures d == Some(Up) <==> key == "w" || key == "W"
    ensures d == Some(Left) <==> key == "a" || key == "A"
    ensures d == Some(Down) <==> key == "s" || key == "S"
    ensures d == Some(Right) <==> key == "d" || key == "D"
    ensures d != Some(Null)
    ensures KeyAccepted(key) ==> (d.None? <==> key == ",")
  {
    var k := LowerCase(key);
    assert |k| == 1 ==> k == [LowerChar(key[0])];
    if k == "w" then Some(Up)
    else if k == "a" then Some(Left)
    else if k == "s" then Some(Down)
    else if k == "d" then Some(Right)
    else None
  }

  // ---------------------------------------------------------------------------
  // The body
  // ---------------------------------------------------------------------------

  /** The cells the segments stand on. */
  function Cells(s: seq<Segment>): set<Cell> {
    set j | 0 <= j < |s| :: s[j].At()
  }

  predicate OnBoard(s: seq<Segment>) {
    forall j :: 0 <= j < |s| ==> InGrid(s[j].At())
  }

  /** Handing the cell of segment `i - 1` to segment `i` changes the set of
      covered cells only by the segment that moved off the end of the run. */
  lemma ShiftCells(s: seq<Segment>, i: int, h: Cell)
    requires Distinct(s) && 0 < i < |s| && h !in Cells(s)
    ensures Cells(s) - {s[i - 1].At()} + {h} - {s[i].At()} + {s[i - 1].At()}
         == Cells(s) - {s[i].At()} + {h}
  {
    assert s[i - 1].At() in Cells(s);
    assert s[i - 1].At() != s[i].At();
  }

  /** No two segments share a cell. */
  predicate Distinct(s: seq<Segment>) {
    forall a, b :: 0 <= a < b < |s| ==> s[a].At() != s[b].At()
  }

  /** Every segment behind the head reaches its predecessor's cell by one step along
      its own heading. */
  ghost predicate Linked(s: seq<Segment>) {
    forall j :: 1 <= j < |s| ==> Step(s[j].At(), s[j].dir) == s[j - 1].At()
  }

  /** The occupancy grid marks exactly the cells of `cells`. */
  predicate Marks(grid: array2<bool>, cells: set<Cell>)
    requires Dims(grid)
    reads grid
  {
    forall r, c {:trigger grid[r, c]} :: 0 <= r < TILES_HIGH && 0 <= c < TILES_WIDE ==>
      (grid[r, c] <==> Cell(r, c) in cells)
  }

  /** Four segments on row 1, head at column 4, tail at column 1, none heading anywhere. */
  function InitialSnake(): (s: seq<Segment>)
    ensures |s| == 4 && forall j :: 0 <= j < |s| ==> s[j] == Segment(1, 4 - j, Null)
  {
    [Segment(1, 4, Null), Segment(1, 3, Null), Segment(1, 2, Null), Segment(1, 1, Null)]
  }

  lemma InitialSnakeShape()
    ensures OnBoard(InitialSnake()) && Distinct(InitialSnake())
    ensures Cells(InitialSnake()) == {Cell(1, 4), Cell(1, 3), Cell(1, 2), Cell(1, 1)}
  {
    var s := InitialSnake();
    assert s[0].At() == Cell(1, 4) && s[1].At() == Cell(1, 3);
    assert s[2].At() == Cell(1, 2) && s[3].At() == Cell(1, 1);
  }

  /** The starting snake with every segment behind the head turned right is linked,
      whatever the head's heading. */
  lemma StartLinked(s: seq<Segment>)
    requires |s| == |InitialSnake()| && s[0].At() == InitialSnake()[0].At()
    requires forall j :: 1 <= j < |s| ==> s[j] == InitialSnake()[j].(dir := Right)
    ensures Linked(s)
  {
    var init := InitialSnake();
    forall j | 1 <= j < |s| ensures Step(s[j].At(), s[j].dir) == s[j - 1].At() {
      assert s[j] == init[j].(dir := Right);
      assert s[j - 1].At() == init[j - 1].At();
    }
  }

  /** The body after one tick without growth: every segment has moved one step along
      the heading it had, the head keeps its heading and every other segment takes
      over the heading its predecessor had. */
  function Moved(s: seq<Segment>): (m: seq<Segment>)
    ensures |m| == |s|
  {
    seq(|s|, j requires 0 <= j < |s| => MovedAt(s, j))
  }

  /** Segment `j` of `Moved(s)`. */
  function MovedAt(s: seq<Segment>, j: int): (r: Segment)
    requires 0 <= j < |s|
    ensures r.At() == Step(s[j].At(), s[j].dir)
    ensures r.dir == s[if j == 0 then 0 else j - 1].dir
  {
    var c := Step(s[j].At(), s[j].dir);
    Segment(c.row, c.col, s[if j == 0 then 0 else j - 1].dir)
  }

  /** The body part-way through a tick: the first `i` segments have moved, the rest
      have not yet. */
  ghost function Partial(s: seq<Segment>, i: int): (p: seq<Segment>)
    ensures |p| == |s|
  {
    seq(|s|, j requires 0 <= j < |s| => if j < i then Moved(s)[j] else s[j])
  }

  /** The cells carrying the `snake` class part-way through a tick, before segment
      `i` moves: the head has moved to `h`, and the cell segment `i - 1` left is
      free again until segment `i` steps into it. */
  ghost function Covered(s: seq<Segment>, h: Cell, i: int): set<Cell>
    requires 0 <= i <= |s|
  {
    if i == 0 then Cells(s) else Cells(s) - {s[i - 1].At()} + {h}
  }

  /** Before the walk nothing has moved; after it, everything has. */
  lemma PartialEnds(s: seq<Segment>)
    ensures Partial(s, 0) == s && Partial(s, |s|) == Moved(s)
  {
  }

  /** Moving segment `i` advances the walk by one. */
  lemma PartialStep(s: seq<Segment>, i: int)
    requires 0 <= i < |s|
    ensures Partial(s, i)[i := Moved(s)[i]] == Partial(s, i + 1)
  {
  }

  /** The body after one tick with growth: the moved body plus the old tail, unmoved. */
  function Grown(s: seq<Segment>): (g: seq<Segment>)
    requires |s| > 0
    ensures |g| == |s| + 1 && g[..|s|] == Moved(s) && g[|s|] == s[|s| - 1]
  {
    Moved(s) + [s[|s| - 1]]
  }

  /** The head's cell after one tick. */
  function NextHead(s: seq<Segment>): Cell
    requires |s| > 0
  {
    Step(s[0].At(), s[0].dir)
  }

  /** Changing only headings leaves the covered cells, and whether they are on the
      board and distinct, as they were. */
  lemma SameCells(s: seq<Segment>, t: seq<Segment>)
    requires |s| == |t| && forall j :: 0 <= j < |s| ==> s[j].At() == t[j].At()
    ensures Cells(s) == Cells(t)
    ensures OnBoard(s) == OnBoard(t) && Distinct(s) == Distinct(t)
  {
    forall x | x in Cells(s) ensures x in Cells(t) {
      var j :| 0 <= j < |s| && s[j].At() == x;
      assert t[j].At() == x;
    }
    forall x | x in Cells(t) ensures x in Cells(s) {
      var j :| 0 <= j < |t| && t[j].At() == x;
      assert s[j].At() == x;
    }
  }

  /** Moving keeps the body linked. */
  lemma MovedLinked(s: seq<Segment>)
    requires Linked(s)
    ensures Linked(Moved(s))
  {
    var m := Moved(s);
    forall j | 1 <= j < |m| ensures Step(m[j].At(), m[j].dir) == m[j - 1].At() {
      assert m[j].At() == s[j - 1].At();
    }
  }

  /** After a move of a linked body, the head stands on its next cell and every other
      segment on its predecessor's old cell. */
  lemma MovedFollows(s: seq<Segment>)
    requires |s| > 0 && Linked(s)
    ensures Moved(s)[0].At() == NextHead(s)
    ensures forall j :: 1 <= j < |s| ==> Moved(s)[j].At() == s[j - 1].At()
  {
  }

  /** Moving a linked body vacates the tail's cell and takes the head's new cell. */
  lemma MovedCells(s: seq<Segment>)
    requires |s| > 0 && Linked(s) && Distinct(s)
    ensures Cells(Moved(s)) == Cells(s) - {s[|s| - 1].At()} + {NextHead(s)}
  {
    var m, n := Moved(s), |s|;
    MovedFollows(s);
    var want := Cells(s) - {s[n - 1].At()} + {NextHead(s)};
    forall x | x in Cells(m) ensures x in want {
      var j :| 0 <= j < n && m[j].At() == x;
      if j > 0 {
        assert x == s[j - 1].At();
        assert x in Cells(s);
      }
    }
    forall x | x in want ensures x in Cells(m) {
      if x == NextHead(s) {
        assert m[0].At() == x;
      } else {
        var j :| 0 <= j < n && s[j].At() == x;
        assert j < n - 1;
        assert m[j + 1].At() == x;
      }
    }
  }

  /** Moving a linked body whose head steps onto a free board cell keeps it on the
      board with its segments on distinct cells. */
  lemma MovedDistinct(s: seq<Segment>)
    requires |s| > 0 && Linked(s) && Distinct(s) && OnBoard(s)
    requires InGrid(NextHead(s)) && NextHead(s) !in Cells(s)
    ensures OnBoard(Moved(s)) && Distinct(Moved(s))
  {
    var m := Moved(s);
    forall j | 1 <= j < |m| ensures m[j].At() == s[j - 1].At() {
    }
    forall a, b | 0 <= a < b < |m| ensures m[a].At() != m[b].At() {
      if a == 0 {
        assert s[b - 1].At() in Cells(s);
      }
    }
  }

  /** Growing keeps the body linked, on the board and distinct, and adds the head's
      new cell to the cells it covers. */
  lemma GrownBody(s: seq<Segment>)
    requires |s| > 0 && Linked(s) && Distinct(s) && OnBoard(s)
    requires InGrid(NextHead(s)) && NextHead(s) !in Cells(s)
    ensures Linked(Grown(s)) && OnBoard(Grown(s)) && Distinct(Grown(s))
    ensures Cells(Grown(s)) == Cells(s) + {NextHead(s)}
  {
    var g, m, n := Grown(s), Moved(s), |s|;
    MovedLinked(s);
    MovedDistinct(s);
    MovedCells(s);
    forall j | 1 <= j < n ensures m[j].At() == s[j - 1].At() {
    }
    forall a, b | 0 <= a < b < |g| ensures g[a].At() != g[b].At() {
      if b == n {
        if a == 0 {
          assert s[n - 1].At() in Cells(s);
        } else {
          assert g[a] == m[a];
        }
      } else {
        assert g[a] == m[a] && g[b] == m[b];
      }
    }
    forall j | 1 <= j < |g| ensures Step(g[j].At(), g[j].dir) == g[j - 1].At() {
      if j < n {
        assert g[j] == m[j] && g[j - 1] == m[j - 1];
      }
    }
    assert Cells(g) == Cells(m) + {s[n - 1].At()} by {
      forall x | x in Cells(g) ensures x in Cells(m) + {s[n - 1].At()} {
        var j :| 0 <= j < |g| && g[j].At() == x;
        if j < n {
          assert m[j].At() == x;
        }
      }
      forall x | x in Cells(m) + {s[n - 1].At()} ensures x in Cells(g) {
        if x == s[n - 1].At() {
          assert g[n].At() == x;
        } else {
          var j :| 0 <= j < n && m[j].At() == x;
          assert g[j].At() == x;
        }
      }
    }
  }

  // ---------------------------------------------------------------------------
  // The game
  // ---------------------------------------------------------------------------

  /** The module-level state of the page: the snake, the tiles carrying the `snake`
      class, the apple, the counters, and whether the render interval is running. */
  class Game {
    /** The linked list from the head, as a sequence. */
    var snake: seq<Segment>
    /** `occupied[r, c]` iff the tile at row r, column c carries the `snake` class. */
    const occupied: array2<bool>
    var appleRow: int
    var appleCol: int
    var tilesToAdd: nat
    var score: nat
    var started: bool
    /** Stands for the interval that calls `Tick` ten times a second. */
    var running: bool

    ghost predicate Valid()
      reads this, occupied
    {
      Dims(occupied) &&
      |snake| > 0 && OnBoard(snake) && Distinct(snake) &&
      Marks(occupied, Cells(snake)) &&
      (started ==> Linked(snake)) &&
      (!started ==> snake == InitialSnake()) &&
      InGrid(Cell(appleRow, appleCol))
    }

    /** The board before any snake is drawn on it. */
    ghost predicate Blank()
      reads this, occupied
    {
      Dims(occupied) && !started &&
      forall r, c :: 0 <= r < TILES_HIGH && 0 <= c < TILES_WIDE ==> !occupied[r, c]
    }

    /** The tick will end the game: the head's next cell is off the board or carries
        the `snake` class. */
    ghost predicate HeadBlocked()
      requires Valid()
      reads this, occupied
    {
      Blocked(occupied, NextHead(snake))
    }

    /** Builds the board and sets up the first game. */
    constructor ()
      ensures Valid() && fresh(occupied)
      ensures snake == InitialSnake() && !started && !running
      ensures score == 0 && tilesToAdd == 0
      ensures !occupied[appleRow, appleCol]
    {
      occupied := new bool[TILES_HIGH, TILES_WIDE]((r, c) => false);
      snake := [];
      appleRow, appleCol := 0, 0;
      tilesToAdd, score := 0, 0;
      started, running := false, false;
      new;
      SetupGame();
    }

    /** Clears the last game's snake, if a game was started, and sets up a new one:
        the starting snake, a fresh apple, and zeroed counters. */
    method SetupGame()
      requires Valid() || Blank()
      modifies this, occupied
      ensures Valid()
      ensures snake == InitialSnake() && !started && running == old(running)
      ensures score == 0 && tilesToAdd == 0
      ensures forall r, c :: 0 <= r < TILES_HIGH && 0 <= c < TILES_WIDE ==>
        occupied[r, c] == (r == 1 && 1 <= c <= 4)
      ensures !occupied[appleRow, appleCol]
    {
      if started {
        EraseSnake();
      }
      CreateSnake();
      assert !occupied[0, 0];
      GenerateApple();
      score := 0;
      started := false;
      tilesToAdd := 0;
      SetUpValid();
    }

    /** The starting snake drawn on an otherwise empty board is a valid state. */
    lemma SetUpValid()
      requires Dims(occupied) && !started && snake == InitialSnake()
      requires forall r, c :: 0 <= r < TILES_HIGH && 0 <= c < TILES_WIDE ==>
        occupied[r, c] == (r == 1 && 1 <= c <= 4)
      requires InGrid(Cell(appleRow, appleCol))
      ensures Valid()
    {
      InitialSnakeShape();
    }

    /** Removes the `snake` class from the tile of every segment, walking the list from
        the head, and drops the list. */
    method EraseSnake()
      requires Valid()
      modifies this`snake, occupied
      ensures snake == []
      ensures forall r, c :: 0 <= r < TILES_HIGH && 0 <= c < TILES_WIDE ==> !occupied[r, c]
    {
      var i := 0;
      while i < |snake|
        invariant 0 <= i <= |snake|
        invariant forall j :: 0 <= j < i ==> !occupied[snake[j].row, snake[j].col]
        invariant forall r, c :: 0 <= r < TILES_HIGH && 0 <= c < TILES_WIDE ==>
          occupied[r, c] ==> Cell(r, c) in Cells(snake)
        modifies occupied
      {
        occupied[snake[i].row, snake[i].col] := false;
        i := i + 1;
      }
      snake := [];
    }

    /** Draws the starting snake: the head at row 1, column 4, then one segment per
        tile to its left down to column 1. */
    method CreateSnake()
      requires Dims(occupied)
      modifies this`snake, occupied
      ensures snake == InitialSnake()
      ensures forall r, c :: 0 <= r < TILES_HIGH && 0 <= c < TILES_WIDE ==>
        occupied[r, c] == (old(occupied[r, c]) || (r == 1 && 1 <= c <= 4))
    {
      var col := 4;
      occupied[1, col] := true;
      snake := [Segment(1, col, Null)];
      col := col - 1;
      while col > 0
        invariant 0 <= col <= 3
        invariant snake == InitialSnake()[..4 - col]
        invariant forall r, c :: 0 <= r < TILES_HIGH && 0 <= c < TILES_WIDE ==>
          occupied[r, c] == (old(occupied[r, c]) || (r == 1 && col < c <= 4))
      {
        occupied[1, col] := true;
        snake := snake + [Segment(1, col, Null)];
        col := col - 1;
      }
    }

    /** Places the apple on a tile chosen at random among those without the `snake`
        class, and records its row and column as read back from the tile's class string. */
    method GenerateApple()
      requires Dims(occupied)
      requires exists x :: InGrid(x) && !occupied[x.row, x.col]
      modifies this`appleRow, this`appleCol
      ensures InGrid(Cell(appleRow, appleCol)) && !occupied[appleRow, appleCol]
    {
      var roll: real :| 0.0 <= roll < 1.0;
      var tile := PickApple(occupied, roll);
      if tile.None? {
        assert false;
      }
      var cls := AppleClass(tile.value);
      AppleClassRoundTrip(tile.value);
      appleRow := ReadRow(cls).value;
      appleCol := ReadCol(cls).value;
    }

    /**
     * The board side of one step of the move loop: the segment leaves `from`
     * for `to`, and if `to` holds the apple, the apple moves, the growth
     * queue gains TILES_PER_APPLE and the score goes up by one.
     */
    method Relocate(from: Cell, to: Cell, ghost body: set<Cell>)
      requires Dims(occupied) && Marks(occupied, body)
      requires InGrid(from) && InGrid(to) && from in body && to !in body
      requires InGrid(Cell(appleRow, appleCol))
      modifies occupied, this`appleRow, this`appleCol, this`tilesToAdd, this`score
      ensures Marks(occupied, body - {from} + {to})
      ensures InGrid(Cell(appleRow, appleCol))
      ensures to == old(Cell(appleRow, appleCol)) ==>
        score == old(score) + 1 && tilesToAdd == old(tilesToAdd) + TILES_PER_APPLE &&
        Cell(appleRow, appleCol) !in body - {from}
      ensures to != old(Cell(appleRow, appleCol)) ==>
        score == old(score) && tilesToAdd == old(tilesToAdd) &&
        appleRow == old(appleRow) && appleCol == old(appleCol)
    {
      occupied[from.row, from.col] := false;
      if to.row == appleRow && to.col == appleCol {
        GenerateApple();
        tilesToAdd := tilesToAdd + TILES_PER_APPLE;
        score := score + 1;
      }
      occupied[to.row, to.col] := true;
    }

    /**
     * The state part-way through a tick that started from body `o`, with `h`
     * the cell the head is heading for, `score0` and `tiles0` the counters and
     * `apple0` the apple: segments before `i` have moved, `direction` is the
     * heading segment `i` takes over, and the counters account for every apple
     * eaten so far.
     */
    ghost predicate Midway(o: seq<Segment>, h: Cell, score0: nat, tiles0: nat, apple0: Cell,
                           i: int, direction: Dir)
      reads this, occupied
    {
      Dims(occupied) && 0 <= i <= |o| && 0 < |o| && OnBoard(o) && Distinct(o) &&
      h == NextHead(o) && (started ==> Linked(o)) && (!started ==> o[0].dir == Null) &&
      snake == Partial(o, i) &&
      direction == o[if i == 0 then 0 else i - 1].dir &&
      (0 < i ==> started && InGrid(h) && h !in Cells(o)) &&
      Marks(occupied, Covered(o, h, i)) &&
      score0 <= score <= score0 + i &&
      tilesToAdd == tiles0 + TILES_PER_APPLE * (score - score0) &&
      (score == score0 <==> forall j :: 0 <= j < i ==> Moved(o)[j].At() != apple0) &&
      (score == score0 ==> Cell(appleRow, appleCol) == apple0) &&
      InGrid(Cell(appleRow, appleCol))
    }

    /**
     * The first part of one pass of the move loop, on segment `i`: it steps
     * along its heading (for the head, the game ends and the step is undone if
     * the new cell is blocked), the board follows, and the segment takes over
     * `direction` and hands its own heading on.
     */
    method MoveSegment(i: int, direction: Dir, ghost o: seq<Segment>, ghost h: Cell,
                       ghost score0: nat, ghost tiles0: nat, ghost apple0: Cell)
      returns (handed: Dir, over: bool)
      requires Midway(o, h, score0, tiles0, apple0, i, direction) && i < |o| && running
      modifies this, occupied
      ensures started == old(started)
      ensures i == 0 ==> (over <==> old(Blocked(occupied, h)))
      ensures over ==>
        i == 0 && !running && snake == old(snake) && unchanged(occupied) &&
        score == old(score) && tilesToAdd == old(tilesToAdd) &&
        appleRow == old(appleRow) && appleCol == old(appleCol)
      ensures !over ==> running && Midway(o, h, score0, tiles0, apple0, i + 1, handed)
    {
      handed, over := direction, false;
      ghost var before := snake;
      var prevRow, prevCol := snake[i].row, snake[i].col;
      var next := Step(snake[i].At(), snake[i].dir);
      snake := snake[i := snake[i].(row := next.row, col := next.col)];
      ghost var stepped := snake[i];
      if i == 0 {
        over := CheckGameOver();
        if over {
          snake := snake[i := snake[i].(row := prevRow, col := prevCol)];
          assert snake == before;
          return;
        }
        ghost var first := o[0].At();
        assert first in Cells(o) && (!started ==> h == first);
        assert started;
      } else {
        assert next == o[i - 1].At();
      }
      assert o[i].At() in Covered(o, h, i) && Cell(prevRow, prevCol) == o[i].At() != h;
      Relocate(Cell(prevRow, prevCol), next, Covered(o, h, i));
      handed := snake[i].dir;
      snake := snake[i := snake[i].(dir := direction)];
      assert snake == before[i := stepped][i := Moved(o)[i]] == before[i := Moved(o)[i]];
      PartialStep(o, i);
      if 0 < i {
        ShiftCells(o, i, h);
      }
    }

    /**
     * The growth step at the end of the move loop: one segment is appended
     * behind the moved tail, on the cell the tail left and with the heading
     * the tail had, and one owed tile is paid off.
     */
    method GrowTail(direction: Dir, ghost o: seq<Segment>, ghost h: Cell,
                    ghost score0: nat, ghost tiles0: nat, ghost apple0: Cell)
      requires Midway(o, h, score0, tiles0, apple0, |o|, direction) && running && tilesToAdd > 0
      modifies this`snake, this`tilesToAdd, occupied
      ensures snake == Grown(o) && tilesToAdd == old(tilesToAdd) - 1
      ensures Marks(occupied, Cells(o) + {h})
      ensures Valid() && Advanced(o, score0, tiles0, apple0)
    {
      PartialEnds(o);
      ghost var last := o[|o| - 1];
      var tail := snake[|snake| - 1];
      assert tail.At() == Step(last.At(), last.dir);
      var back := Back(tail.At(), direction);
      BackUndoesStep(last.At(), last.dir);
      assert back == last.At() && last.At() in Cells(o);
      snake := snake + [Segment(back.row, back.col, direction)];
      occupied[back.row, back.col] := true;
      tilesToAdd := tilesToAdd - 1;
      GrownBody(o);
    }

    /**
     * What a tick that does not end the game leaves behind, given the body
     * `o`, the score `score0`, the owed tiles `tiles0` and the apple `apple0`
     * before it: the body has moved, and grown by one segment exactly when
     * tiles were owed once the apples eaten on the way were counted; the score
     * went up by one per segment that landed on the apple, and only then did
     * the apple move.
     */
    ghost predicate Advanced(o: seq<Segment>, score0: nat, tiles0: nat, apple0: Cell)
      reads this
    {
      0 < |o| && running &&
      (snake == Moved(o) || snake == Grown(o)) &&
      (|snake| > |o| <==> tiles0 + TILES_PER_APPLE * (score - score0) > 0) &&
      tilesToAdd == tiles0 + TILES_PER_APPLE * (score - score0) - (|snake| - |o|) &&
      score0 <= score <= score0 + |o| &&
      (score == score0 <==> forall j :: 0 <= j < |o| ==> Moved(o)[j].At() != apple0) &&
      (score == score0 ==> Cell(appleRow, appleCol) == apple0)
    }

    /** A walk that reached the end of the body without growing leaves a valid,
        advanced state. */
    lemma MovedDone(o: seq<Segment>, h: Cell, score0: nat, tiles0: nat, apple0: Cell, direction: Dir)
      requires Midway(o, h, score0, tiles0, apple0, |o|, direction)
      requires running && tilesToAdd == 0
      ensures Valid() && Advanced(o, score0, tiles0, apple0)
    {
      PartialEnds(o);
      MovedLinked(o);
      MovedCells(o);
      MovedDistinct(o);
    }

    /** One tick of the render interval. Walks the list from the head: each segment
        moves one step along its heading and hands that heading to the next segment; the
        head's move is undone and the game ends if it leaves the board or lands on the
        snake; a segment landing on the apple scores and places a new apple; and while
        tiles are owed, the tail grows by one unmoved segment and the walk stops. */
    method Tick()
      requires Valid() && running
      modifies this, occupied
      ensures Valid() && started == old(started)
      ensures old(HeadBlocked()) ==>
        !running && snake == old(snake) && unchanged(occupied) &&
        score == old(score) && tilesToAdd == old(tilesToAdd) &&
        appleRow == old(appleRow) && appleCol == old(appleCol)
      ensures !old(HeadBlocked()) ==>
        Advanced(old(snake), old(score), old(tilesToAdd), old(Cell(appleRow, appleCol)))
      ensures score == old(score) ==> appleRow == old(appleRow) && appleCol == old(appleCol)
    {
      ghost var o, h := snake, NextHead(snake);
      ghost var score0, tiles0, apple0 := score, tilesToAdd, Cell(appleRow, appleCol);
      PartialEnds(o);
      var i := 0;
      var direction := snake[0].dir;
      while i < |snake|
        invariant running && started == old(started)
        invariant Midway(o, h, score0, tiles0, apple0, i, direction)
        invariant i == 0 ==> unchanged(occupied)
        invariant i == |o| ==> tilesToAdd == 0
        invariant 0 < i ==> !old(HeadBlocked())
        decreases |o| - i
      {
        var over;
        direction, over := MoveSegment(i, direction, o, h, score0, tiles0, apple0);
        if over {
          return;
        }
        if i == |snake| - 1 && tilesToAdd > 0 {
          GrowTail(direction, o, h, score0, tiles0, apple0);
          return;
        }
        i := i + 1;
      }
      MovedDone(o, h, score0, tiles0, apple0, direction);
    }

    /** Reports whether the head, already on its new cell, has left the board or landed
        on a `snake` tile; if so the interval is stopped. */
    method CheckGameOver() returns (over: bool)
      requires Dims(occupied) && |snake| > 0
      modifies this`running
      ensures over == Blocked(occupied, snake[0].At())
      ensures running == (old(running) && !over)
    {
      var head := snake[0];
      over := head.row < 0 || head.row >= TILES_HIGH || head.col < 0 || head.col >= TILES_WIDE
        || occupied[head.row, head.col];
      if over {
        running := false;
      }
    }

    /** Sets the head's heading from a key, leaving it alone for a key without one. */
    method SetDirectionFromKey(key: string)
      requires |snake| > 0
      modifies this`snake
      ensures |snake| == |old(snake)| && snake[1..] == old(snake)[1..]
      ensures snake[0].At() == old(snake)[0].At()
      ensures snake[0].dir == match KeyDirection(key) case Some(d) => d case None => old(snake)[0].dir
    {
      match KeyDirection(key)
      case Some(d) => snake := snake[0 := snake[0].(dir := d)];
      case None =>
    }

    /** The walk over the list behind the head on the first key: every segment but the
        head is turned right, and nothing else changes. */
    method TurnBodyRight()
      requires |snake| > 0
      modifies this`snake
      ensures |snake| == |old(snake)| && snake[0] == old(snake)[0]
      ensures forall j :: 1 <= j < |snake| ==> snake[j] == old(snake)[j].(dir := Right)
    {
      ghost var s0 := snake;
      var i := 1;
      while i < |snake|
        invariant 1 <= i <= |snake| == |s0|
        invariant snake[0] == s0[0]
        invariant forall j :: 1 <= j < i ==> snake[j] == s0[j].(dir := Right)
        invariant forall j :: i <= j < |snake| ==> snake[j] == s0[j]
      {
        snake := snake[i := snake[i].(dir := Right)];
        i := i + 1;
      }
    }

    /** Handles a key press: an accepted key sets the head's heading; the first
        accepted key of a game also heads the whole body right and starts the interval. */
    method ChangeDirection(key: string)
      requires Valid()
      modifies this
      ensures Valid()
      ensures |snake| == |old(snake)|
      ensures forall j :: 0 <= j < |snake| ==> snake[j].At() == old(snake)[j].At()
      ensures snake[0].dir ==
        if KeyAccepted(key) && KeyDirection(key).Some? then KeyDirection(key).value else old(snake)[0].dir
      ensures forall j :: 1 <= j < |snake| ==>
        snake[j].dir == if KeyAccepted(key) && !old(started) then Right else old(snake)[j].dir
      ensures started == (old(started) || KeyAccepted(key))
      ensures running == (old(running) || (KeyAccepted(key) && !old(started)))
      ensures score == old(score) && tilesToAdd == old(tilesToAdd)
      ensures appleRow == old(appleRow) && appleCol == old(appleCol)
    {
      if KeyAccepted(key) {
        SetDirectionFromKey(key);
        if !started {
          started := true;
          TurnBodyRight();
          running := true;
          StartLinked(snake);
        }
        SameCells(snake, old(snake));
      }
    }
  }

  /** `checkGameOver`'s condition on the head's new cell: off the board, or on a tile
      that carries the `snake` class. */
  predicate Blocked(grid: array2<bool>, c: Cell)
    requires Dims(grid)
    reads grid
  {
    !InGrid(c) || grid[c.row, c.col]
  }
}
