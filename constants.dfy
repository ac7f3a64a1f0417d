/** The configuration tables shared by both versions of the game: the grid,
    the difficulty tiers, the score and speed steps, the four directions and
    the key map. */
module Constants {

  datatype Option<T> = None | Some(value: T)

  /** A grid cell or a direction vector: the `{x, y}` objects of the game. */
  datatype Point = Point(x: int, y: int)
  {
    function Plus(d: Point): Point { Point(x + d.x, y + d.y) }
    function Neg(): Point { Point(-x, -y) }
  }

  const Zero := Point(0, 0)

  const GridSize := 20
  const CanvasWidth := 400
  const CanvasHeight := 400
  const InitialSpeed := 150
  const MinSpeed := 80
  const SpeedIncrement := 5
  const ScoreIncrement := 10

  /** Cells per axis; `GridIsTwentyByTwenty` shows these are
      `CANVAS_WIDTH / GRID_SIZE` and `CANVAS_HEIGHT / GRID_SIZE`. */
  const Columns := 20
  const Rows := 20

  /** A cell of an n-by-n board. */
  predicate OnBoard(p: Point, n: int) {
    0 <= p.x < n && 0 <= p.y < n
  }

  /** A cell of the modular version's board. */
  predicate InGrid(p: Point) {
    0 <= p.x < Columns && 0 <= p.y < Rows
  }

  predicate AllInGrid(cells: seq<Point>) {
    forall i :: 0 <= i < |cells| ==> InGrid(cells[i])
  }

  /** The pixel canvas divides exactly into a 20-by-20 board. */
  lemma GridIsTwentyByTwenty()
    ensures Columns == CanvasWidth / GridSize && Rows == CanvasHeight / GridSize
    ensures Columns * GridSize == CanvasWidth && Rows * GridSize == CanvasHeight
    ensures forall p :: InGrid(p) <==> OnBoard(p, 20)
  {
  }

  // ---------------------------------------------------------------------
  // Difficulty tiers

  datatype Difficulty = Easy | Medium | Hard | Expert

  /** One entry of `DIFFICULTY_LEVELS`: a display name and a tick interval. */
  datatype Level = Level(name: string, speed: int)

  function DifficultyLevel(d: Difficulty): Level {
    match d
    case Easy => Level("简单", 200)
    case Medium => Level("中等", 150)
    case Hard => Level("困难", 100)
    case Expert => Level("专家", 70)
  }

  /** The tick interval of a tier: positive, MEDIUM's is the initial
      interval and EXPERT's is already below the minimum. */
  function TierSpeed(d: Difficulty): (s: int)
    ensures s > 0
    ensures d == Medium ==> s == InitialSpeed
    ensures d == Expert ==> s < MinSpeed
  {
    DifficultyLevel(d).speed
  }

  function Rank(d: Difficulty): nat {
    match d
    case Easy => 0
    case Medium => 1
    case Hard => 2
    case Expert => 3
  }

  /** The four intervals; a harder tier ticks strictly faster. */
  lemma TierSpeeds(d: Difficulty, e: Difficulty)
    ensures TierSpeed(Easy) == 200 && TierSpeed(Medium) == 150
    ensures TierSpeed(Hard) == 100 && TierSpeed(Expert) == 70
    ensures Rank(d) < Rank(e) ==> TierSpeed(e) < TierSpeed(d)
  {
  }

  // ---------------------------------------------------------------------
  // Directions and keys

  datatype DirName = Up | Down | Left | Right

  /** A vector of length one along an axis. */
  predicate IsUnit(v: Point) {
    || (v.x == 0 && (v.y == 1 || v.y == -1))
    || (v.y == 0 && (v.x == 1 || v.x == -1))
  }

  /** `DIRECTIONS`: the four names are exactly the four unit vectors. */
  function Direction(n: DirName): (v: Point)
    ensures IsUnit(v)
  {
    match n
    case Up => Point(0, -1)
    case Down => Point(0, 1)
    case Left => Point(-1, 0)
    case Right => Point(1, 0)
  }

  function Opposite(n: DirName): DirName {
    match n
    case Up => Down
    case Down => Up
    case Left => Right
    case Right => Left
  }

  /** UP/DOWN and LEFT/RIGHT are exact negations of each other, and every
      unit vector is one of the four directions. */
  lemma DirectionsPairUp(n: DirName, v: Point)
    ensures Direction(Opposite(n)) == Direction(n).Neg()
    ensures Opposite(Opposite(n)) == n
    ensures forall m :: Direction(m) == Direction(n) ==> m == n
    ensures IsUnit(v) ==> exists m :: Direction(m) == v
  {
    if IsUnit(v) {
      if v == Point(0, -1) { assert Direction(Up) == v; }
      else if v == Point(0, 1) { assert Direction(Down) == v; }
      else if v == Point(-1, 0) { assert Direction(Left) == v; }
      else { assert Direction(Right) == v; }
    }
  }

  /** `KEY_MAP`, the table the modular version looks key names up in. */
  const KeyTable: map<string, DirName> := map[
    "ArrowUp" := Up, "w" := Up, "W" := Up,
    "ArrowDown" := Down, "s" := Down, "S" := Down,
    "ArrowLeft" := Left, "a" := Left, "A" := Left,
    "ArrowRight" := Right, "d" := Right, "D" := Right
  ]

  function KeyMap(key: string): Option<DirName> {
    if key in KeyTable then Some(KeyTable[key]) else None
  }

  /** The table maps exactly the arrow keys and both cases of w/a/s/d, and
      the two cases of a letter map to the same direction. */
  lemma KeyMapExact()
    ensures KeyTable.Keys == {"ArrowUp", "w", "W", "ArrowDown", "s", "S",
                              "ArrowLeft", "a", "A", "ArrowRight", "d", "D"}
    ensures KeyMap("ArrowUp") == KeyMap("w") == KeyMap("W") == Some(Up)
    ensures KeyMap("ArrowDown") == KeyMap("s") == KeyMap("S") == Some(Down)
    ensures KeyMap("ArrowLeft") == KeyMap("a") == KeyMap("A") == Some(Left)
    ensures KeyMap("ArrowRight") == KeyMap("d") == KeyMap("D") == Some(Right)
  {
  }

  // ---------------------------------------------------------------------
  // The high score

  /** The high score after a game over, in both versions: it takes the
      score only when the score beats it, so it never decreases. */
  function NewHighScore(high: int, score: int): (r: int)
    ensures r >= high && r >= score
    ensures r == high || r == score
    ensures r != high ==> score > high
  {
    if score > high then score else high
  }
}
