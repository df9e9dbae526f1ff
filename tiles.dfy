/** The board of the game: 40 rows of 60 tiles, each tile named by its class string,
    the scan for tiles not covered by the snake, and the random choice among them. */
module Tiles {

  const TILES_WIDE := 60
  const TILES_HIGH := 40
  /** Number of tiles on the board, i.e. the length of the document's list of `.grid-tile`s. */
  const TILE_COUNT := TILES_WIDE * TILES_HIGH

  datatype Option<T> = None | Some(value: T)

  /** A board coordinate; it need not lie on the board (a head may step off it). */
  datatype Cell = Cell(row: int, col: int)

  predicate InGrid(c: Cell) {
    0 <= c.row < TILES_HIGH && 0 <= c.col < TILES_WIDE
  }

  /** The occupancy grid has the board's shape. */
  predicate Dims(grid: array2<bool>) {
    grid.Length0 == TILES_HIGH && grid.Length1 == TILES_WIDE
  }

  /** Position of a tile in document order: tiles are appended row by row, left to right. */
  function Index(c: Cell): int {
    c.row * TILES_WIDE + c.col
  }

  /** The tile at position `t` of the document order. */
  function TileAt(t: nat): (c: Cell)
    requires t < TILE_COUNT
    ensures InGrid(c) && Index(c) == t
  {
    Cell(t / TILES_WIDE, t % TILES_WIDE)
  }

  // ---------------------------------------------------------------------------
  // Tile class strings and the JavaScript string operations used to read them
  // ---------------------------------------------------------------------------

  predicate IsDigit(ch: char) {
    '0' <= ch <= '9'
  }

  /** Decimal text of a non-negative number, as a template literal writes it. */
  function Decimal(n: nat): (s: string)
    ensures |s| > 0
    ensures forall i :: 0 <= i < |s| ==> IsDigit(s[i])
  {
    var d := ['0' + (n % 10) as char];
    if n < 10 then d else Decimal(n / 10) + d
  }

  /** Class string given to the tile at row `r`, column `c` when the board is built. */
  function TileClass(c: Cell): string
    requires c.row >= 0 && c.col >= 0
  {
    "grid-tile r-" + Decimal(c.row) + " c-" + Decimal(c.col)
  }

  /** Class string of a tile once the `apple` class has been added to it. */
  function AppleClass(c: Cell): string
    requires c.row >= 0 && c.col >= 0
  {
    TileClass(c) + " apple"
  }

  /** The search `s.indexOf(p)` performs, from position `k` on: the first position at or
      after `k` where `p` occurs, or -1. */
  function IndexFrom(s: string, p: string, k: nat): (r: int)
    decreases |s| - k
    ensures r == -1 || (k <= r && r + |p| <= |s| && s[r..r + |p|] == p)
  {
    if k + |p| > |s| then -1
    else if s[k..k + |p|] == p then k
    else IndexFrom(s, p, k + 1)
  }

  function IndexOf(s: string, p: string): int {
    IndexFrom(s, p, 0)
  }

  /** `p` occurs in `s` at position `m`. */
  predicate OccursAt(s: string, p: string, m: nat) {
    m + |p| <= |s| && s[m..m + |p|] == p
  }

  /** The search finds the first occurrence at or after `k`, and gives -1 exactly when
      there is none. */
  lemma {:induction false} IndexFromFirst(s: string, p: string, k: nat)
    ensures IndexFrom(s, p, k) >= 0 ==>
      forall m :: k <= m < IndexFrom(s, p, k) ==> !OccursAt(s, p, m)
    ensures IndexFrom(s, p, k) == -1 <==> forall m :: k <= m ==> !OccursAt(s, p, m)
    decreases |s| - k
  {
    if k + |p| > |s| {
    } else if s[k..k + |p|] == p {
      assert OccursAt(s, p, k);
    } else {
      IndexFromFirst(s, p, k + 1);
    }
  }

  function Clamp(x: int, n: nat): (r: nat)
    ensures r <= n
  {
    if x < 0 then 0 else if x > n then n else x
  }

  /** `s.substring(a, b)`: both ends are clamped to the string, and swapped when out of order. */
  function Substring(s: string, a: int, b: int): (r: string)
    ensures 0 <= a <= b <= |s| ==> r == s[a..b]
    ensures 0 <= b <= a <= |s| ==> r == s[b..a]
    ensures |r| <= |s|
  {
    var i, j := Clamp(a, |s|), Clamp(b, |s|);
    if i <= j then s[i..j] else s[j..i]
  }

  predicate IsSpace(ch: char) {
    ch == ' ' || ch == '\t' || ch == '\n' || ch == '\r' || ch == '\U{B}' || ch == '\U{C}'
  }

  function TrimStart(s: string): string {
    if |s| > 0 && IsSpace(s[0]) then TrimStart(s[1..]) else s
  }

  /** The longest prefix of `s` made of decimal digits. */
  function LeadingDigits(s: string): (d: string)
    ensures |d| <= |s| && d == s[..|d|]
    ensures forall i :: 0 <= i < |d| ==> IsDigit(d[i])
    ensures |d| < |s| ==> !IsDigit(s[|d|])
  {
    if |s| > 0 && IsDigit(s[0]) then [s[0]] + LeadingDigits(s[1..]) else []
  }

  /** Value of a string of decimal digits, most significant first. */
  function DigitsValue(d: string): nat {
    if d == [] then 0
    else
      var last := d[|d| - 1];
      var v := if IsDigit(last) then (last - '0') as nat else 0;
      DigitsValue(d[..|d| - 1]) * 10 + v
  }

  /** `parseInt(s)` with no radix: leading white space, an optional sign, then the
      longest run of decimal digits; `None` stands for NaN (no digit at all). */
  function ParseInt(s: string): Option<int> {
    var t := TrimStart(s);
    var negative := |t| > 0 && t[0] == '-';
    var u := if |t| > 0 && (t[0] == '-' || t[0] == '+') then t[1..] else t;
    var d := LeadingDigits(u);
    if d == [] then None
    else if negative then Some(-(DigitsValue(d) as int))
    else Some(DigitsValue(d))
  }

  /** The row read back from a tile's class string. */
  function ReadRow(cls: string): Option<int> {
    ParseInt(Substring(cls, IndexOf(cls, "r-") + 2, IndexOf(cls, "c-") - 1))
  }

  /** The column read back from a tile's class string. */
  function ReadCol(cls: string): Option<int> {
    ParseInt(Substring(cls, IndexOf(cls, "c-") + 2, |cls|))
  }

  lemma {:induction false} DecimalValue(n: nat)
    ensures DigitsValue(Decimal(n)) == n
  {
    var d := ['0' + (n % 10) as char];
    if n >= 10 {
      DecimalValue(n / 10);
      var s := Decimal(n / 10) + d;
      assert s[..|s| - 1] == Decimal(n / 10);
    }
  }

  lemma {:induction false} LeadingDigitsOf(d: string, rest: string)
    requires forall i :: 0 <= i < |d| ==> IsDigit(d[i])
    requires rest == [] || !IsDigit(rest[0])
    ensures LeadingDigits(d + rest) == d
  {
    if d != [] {
      assert (d + rest)[1..] == d[1..] + rest;
      LeadingDigitsOf(d[1..], rest);
    }
  }

  /** Reading back a number written in decimal, followed by anything that does not
      start with a digit, gives that number. */
  lemma ParseDecimal(n: nat, rest: string)
    requires rest == [] || !IsDigit(rest[0])
    ensures ParseInt(Decimal(n) + rest) == Some(n)
  {
    var s := Decimal(n) + rest;
    assert IsDigit(s[0]);
    assert TrimStart(s) == s;
    LeadingDigitsOf(Decimal(n), rest);
    DecimalValue(n);
  }

  /** The fixed start of every tile's class string holds no 'c', and no 'r' after
      its second character. */
  lemma ClassHeadChars(m: nat)
    requires m < 12
    ensures "grid-tile r-"[m] != 'c'
    ensures 2 <= m < 10 ==> "grid-tile r-"[m] != 'r'
  {
  }

  /** Positions that do not hold the first character of `p` can be skipped. */
  lemma {:induction false} IndexFromSkip(s: string, p: string, k: nat, j: nat)
    requires |p| > 0 && k <= j && j + |p| <= |s|
    requires forall m :: k <= m < j ==> s[m] != p[0]
    ensures IndexFrom(s, p, k) == IndexFrom(s, p, j)
    decreases j - k
  {
    if k < j {
      assert s[k..k + |p|][0] == s[k];
      IndexFromSkip(s, p, k + 1, j);
    }
  }

  /** In an apple tile's class string, "r-" first occurs right after "grid-tile ". */
  lemma RowMarkAt(c: Cell)
    requires c.row >= 0 && c.col >= 0
    ensures IndexOf(AppleClass(c), "r-") == 10
  {
    var head := "grid-tile r-";
    var cls := AppleClass(c);
    assert cls[..12] == head;
    assert cls[0..2] != "r-" by { assert cls[0] == head[0] == 'g'; }
    assert cls[1..3] != "r-" by { assert cls[2] == head[2] == 'i'; }
    forall m | 2 <= m < 10 ensures cls[m] != 'r' {
      assert cls[m] == head[m];
      ClassHeadChars(m);
    }
    IndexFromSkip(cls, "r-", 2, 10);
    assert cls[10..12] == "r-";
    assert IndexFrom(cls, "r-", 0) == IndexFrom(cls, "r-", 1) == IndexFrom(cls, "r-", 2);
  }

  /** In an apple tile's class string, "c-" first occurs after the row digits and a
      space, since nothing before it is a 'c'. */
  lemma ColMarkAt(c: Cell)
    requires c.row >= 0 && c.col >= 0
    ensures IndexOf(AppleClass(c), "c-") == 13 + |Decimal(c.row)|
  {
    var head, rd := "grid-tile r-", Decimal(c.row);
    var cls := AppleClass(c);
    var cAt := 13 + |rd|;
    assert cls[..12] == head;
    assert cls[12..cAt - 1] == rd;
    assert cls[cAt - 1..cAt + 2] == " c-";
    forall m | 0 <= m < cAt ensures cls[m] != 'c' {
      if m < 12 {
        assert cls[m] == head[m];
        ClassHeadChars(m);
      } else if m < cAt - 1 {
        assert cls[m] == rd[m - 12];
      } else {
        assert cls[m] == " c-"[0];
      }
    }
    IndexFromSkip(cls, "c-", 0, cAt);
    assert cls[cAt..cAt + 2] == "c-";
  }

  /** Row and column read back from an apple tile's class string are the ones
      the board was built with. */
  lemma AppleClassRoundTrip(c: Cell)
    requires c.row >= 0 && c.col >= 0
    ensures ReadRow(AppleClass(c)) == Some(c.row)
    ensures ReadCol(AppleClass(c)) == Some(c.col)
  {
    RowRoundTrip(c);
    ColRoundTrip(c);
  }

  /** The text between `r-` and the character before `c-` is the row's digits. */
  lemma RowRoundTrip(c: Cell)
    requires c.row >= 0 && c.col >= 0
    ensures ReadRow(AppleClass(c)) == Some(c.row)
  {
    var rd := Decimal(c.row);
    var cls := AppleClass(c);
    RowMarkAt(c);
    ColMarkAt(c);
    assert cls[12..12 + |rd|] == rd;
    assert Substring(cls, 12, 12 + |rd|) == rd + [];
    ParseDecimal(c.row, []);
  }

  /** The text after `c-` is the column's digits followed by the `apple` class. */
  lemma ColRoundTrip(c: Cell)
    requires c.row >= 0 && c.col >= 0
    ensures ReadCol(AppleClass(c)) == Some(c.col)
  {
    var rd, cd := Decimal(c.row), Decimal(c.col);
    var cls := AppleClass(c);
    ColMarkAt(c);
    var from := 15 + |rd|;
    assert |cls| == from + |cd| + 6;
    assert cls[from..] == cd + " apple";
    assert Substring(cls, from, |cls|) == cd + " apple";
    ParseDecimal(c.col, " apple");
  }

  // ---------------------------------------------------------------------------
  // Free tiles and the random choice of the apple's tile
  // ---------------------------------------------------------------------------

  /** The tiles among the first `t` in document order that are not covered by the snake,
      in document order. */
  ghost function FreeTiles(grid: array2<bool>, t: nat): seq<Cell>
    requires Dims(grid) && t <= TILE_COUNT
    reads grid
  {
    if t == 0 then []
    else
      var c := TileAt(t - 1);
      FreeTiles(grid, t - 1) + if grid[c.row, c.col] then [] else [c]
  }

  /** Every tile in `FreeTiles` is on the board, uncovered, and among the first `t`. */
  lemma {:induction false} FreeTilesSound(grid: array2<bool>, t: nat)
    requires Dims(grid) && t <= TILE_COUNT
    ensures forall x :: x in FreeTiles(grid, t) ==>
      InGrid(x) && !grid[x.row, x.col] && Index(x) < t
  {
    if t > 0 {
      FreeTilesSound(grid, t - 1);
    }
  }

  /** Every uncovered tile among the first `t` is in `FreeTiles`. */
  lemma {:induction false} FreeTilesComplete(grid: array2<bool>, t: nat, x: Cell)
    requires Dims(grid) && t <= TILE_COUNT
    requires InGrid(x) && !grid[x.row, x.col] && Index(x) < t
    ensures x in FreeTiles(grid, t)
  {
    if Index(x) < t - 1 {
      FreeTilesComplete(grid, t - 1, x);
    } else {
      assert TileAt(t - 1) == x;
    }
  }

  /** The list of tiles without the `snake` class, collected in document order. */
  method EmptyTiles(grid: array2<bool>) returns (tiles: seq<Cell>)
    requires Dims(grid)
    ensures tiles == FreeTiles(grid, TILE_COUNT)
    ensures forall x :: x in tiles <==> InGrid(x) && !grid[x.row, x.col]
  {
    tiles := [];
    var t := 0;
    while t < TILE_COUNT
      invariant 0 <= t <= TILE_COUNT
      invariant tiles == FreeTiles(grid, t)
    {
      var c := TileAt(t);
      if !grid[c.row, c.col] {
        tiles := tiles + [c];
      }
      t := t + 1;
    }
    FreeTilesSound(grid, TILE_COUNT);
    forall x | InGrid(x) && !grid[x.row, x.col] ensures x in tiles {
      FreeTilesComplete(grid, TILE_COUNT, x);
    }
  }

  /** `Math.floor(roll * n)` for a roll in [0, 1). */
  function RandIndex(roll: real, n: nat): (k: int)
    requires 0.0 <= roll < 1.0
    ensures n > 0 ==> 0 <= k < n
  {
    var x := roll * n as real;
    assert n > 0 ==> x < n as real;
    x.Floor
  }

  /** The tile chosen for the apple with random number `roll`: the tile at index
      `floor(roll * count)` of the free tiles; `None` when no tile is free. */
  method PickApple(grid: array2<bool>, roll: real) returns (apple: Option<Cell>)
    requires Dims(grid) && 0.0 <= roll < 1.0
    ensures apple.None? <==> forall x :: InGrid(x) ==> grid[x.row, x.col]
    ensures apple.Some? ==> InGrid(apple.value) && !grid[apple.value.row, apple.value.col]
    ensures apple.Some? ==>
      var free := FreeTiles(grid, TILE_COUNT);
      |free| > 0 && apple.value == free[RandIndex(roll, |free|)]
  {
    var tiles := EmptyTiles(grid);
    var k := RandIndex(roll, |tiles|);
    if 0 <= k < |tiles| {
      apple := Some(tiles[k]);
      assert tiles[k] in tiles;
    } else {
      apple := None;
      forall x | InGrid(x) ensures grid[x.row, x.col] {
        assert x !in tiles;
      }
    }
  }
}
