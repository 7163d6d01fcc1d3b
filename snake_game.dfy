/**
 * The snake game played in the browser: a snake of cells on a 15 x 15 grid that
 * moves one cell per timer tick, grows when it eats the food and ends the game
 * when it hits a wall (in "walls" mode) or itself. In any other mode the head
 * wraps around the edges instead.
 *
 * The pure function `Step` is the specification of one tick; the class
 * `SnakeBoard` holds the component's state and its `Tick` method performs the
 * tick by updating that state in place.
 */
module SnakeGame {

  import opened Wrappers

  const GRID_SIZE: int := 15
  const CELL_COUNT: int := GRID_SIZE * GRID_SIZE

  datatype Cell = Cell(x: int, y: int)

  const INIT_SNAKE: seq<Cell> := [Cell(7, 7)]
  const INIT_FOOD: Cell := Cell(3, 3)

  /** The four arrow keys the game reacts to. */
  datatype Dir = ArrowUp | ArrowDown | ArrowLeft | ArrowRight

  /** The unit vector of each key (screen coordinates: y grows downwards). */
  function Delta(d: Dir): (v: Cell)
    ensures v in {Cell(0, -1), Cell(0, 1), Cell(-1, 0), Cell(1, 0)}
  {
    match d
    case ArrowUp => Cell(0, -1)
    case ArrowDown => Cell(0, 1)
    case ArrowLeft => Cell(-1, 0)
    case ArrowRight => Cell(1, 0)
  }

  /** The component compares its `mode` prop with "walls"; every other value wraps. */
  datatype Mode = Walls | PassThrough

  function ModeOf(name: string): (m: Mode)
    ensures m == Walls <==> name == "walls"
  {
    if name == "walls" then Walls else PassThrough
  }

  predicate InGrid(c: Cell) {
    0 <= c.x < GRID_SIZE && 0 <= c.y < GRID_SIZE
  }

  /** JavaScript's `%`: the remainder truncated toward zero, with the sign of the dividend. */
  function JsRem(a: int, n: int): (r: int)
    requires n > 0
    ensures -n < r < n
    ensures a >= 0 ==> r >= 0
    ensures a <= 0 ==> r <= 0
    ensures a >= 0 ==> r == a % n
  {
    if a >= 0 then a % n else -((-a) % n)
  }

  /** The pass-through wrap of one coordinate, `(c + GRID_SIZE) % GRID_SIZE`. */
  function Wrap(c: int): (r: int)
    ensures -GRID_SIZE <= c ==> 0 <= r < GRID_SIZE
  {
    JsRem(c + GRID_SIZE, GRID_SIZE)
  }

  /** The wrap moves a coordinate by a multiple of the grid size only: cells
      inside the grid stay, one step off either edge re-enters at the other. */
  lemma WrapInRange(c: int)
    requires -GRID_SIZE <= c
    ensures (Wrap(c) - c) % GRID_SIZE == 0
    ensures 0 <= c < GRID_SIZE ==> Wrap(c) == c
    ensures c == -1 ==> Wrap(c) == GRID_SIZE - 1
    ensures c == GRID_SIZE ==> Wrap(c) == 0
  {
  }

  /** The head copied and moved one step in direction `d`. */
  method MoveHead(head: Cell, d: Dir) returns (moved: Cell)
    ensures moved == Advance(head, d)
    ensures moved.x - head.x in {-1, 0, 1} && moved.y - head.y in {-1, 0, 1}
  {
    moved := head;
    moved := moved.(x := moved.x + Delta(d).x);
    moved := moved.(y := moved.y + Delta(d).y);
  }

  /** Both coordinates wrapped in place, as pass-through mode does. */
  method WrapHead(head: Cell) returns (wrapped: Cell)
    ensures wrapped == Placed(PassThrough, head)
    ensures -GRID_SIZE <= head.x && -GRID_SIZE <= head.y ==> InGrid(wrapped)
  {
    wrapped := head;
    wrapped := wrapped.(x := JsRem(wrapped.x + GRID_SIZE, GRID_SIZE));
    wrapped := wrapped.(y := JsRem(wrapped.y + GRID_SIZE, GRID_SIZE));
  }

  /** The snake occupies distinct cells of the grid, head first, and is never empty. */
  ghost predicate SnakeInv(s: seq<Cell>) {
    && |s| > 0
    && (forall i :: 0 <= i < |s| ==> InGrid(s[i]))
    && (forall i, j :: 0 <= i < j < |s| ==> s[i] != s[j])
  }

  /** What the component keeps in its state hooks (the direction is kept separately). */
  datatype Board = Board(snake: seq<Cell>, food: Cell, score: int, gameOver: bool)

  ghost predicate BoardInv(b: Board) {
    SnakeInv(b.snake) && InGrid(b.food) && b.score >= 0
  }

  const InitialBoard: Board := Board(INIT_SNAKE, INIT_FOOD, 0, false)

  /** The callbacks a tick fires: `onGameOver(score)` or `onScore(score + 1)`. */
  datatype Notice = Quiet | GameOverNotice(finalScore: int) | ScoreNotice(newScore: int)

  datatype TickResult = TickResult(board: Board, notice: Notice)

  /** The head moved one step in direction `d`, before any wrapping. */
  function Advance(head: Cell, d: Dir): (moved: Cell)
    ensures moved.x == head.x || moved.y == head.y
    ensures (moved.x - head.x) + (moved.y - head.y) in {-1, 1}
  {
    Cell(head.x + Delta(d).x, head.y + Delta(d).y)
  }

  /** Where the moved head lands: as is with walls, wrapped in pass-through mode. */
  function Placed(mode: Mode, raw: Cell): (c: Cell)
    ensures mode == Walls ==> c == raw
    ensures mode == PassThrough && -GRID_SIZE <= raw.x && -GRID_SIZE <= raw.y ==> InGrid(c)
  {
    if mode == Walls then raw else Cell(Wrap(raw.x), Wrap(raw.y))
  }

  /** One timer tick. Once the game is over the timer is no longer installed,
      so a tick changes nothing. `nextFood` stands for the random cell the
      component picks when the food is eaten. */
  function Step(b: Board, mode: Mode, d: Dir, nextFood: Cell): (r: TickResult)
    requires b.snake != []
    ensures r.board.snake != []
    ensures |r.board.snake| == |b.snake| || |r.board.snake| == |b.snake| + 1
    ensures r.board.score - b.score == |r.board.snake| - |b.snake|
    ensures r.notice.ScoreNotice? <==> r.board.score == b.score + 1
    ensures r.notice.ScoreNotice? ==> r.notice.newScore == r.board.score
  {
    if b.gameOver then TickResult(b, Quiet)
    else
      var raw := Advance(b.snake[0], d);
      if mode == Walls && !InGrid(raw) then
        TickResult(b.(gameOver := true), GameOverNotice(b.score))
      else
        var head := Placed(mode, raw);
        if head in b.snake then
          TickResult(b.(gameOver := true), GameOverNotice(b.score))
        else if head == b.food then
          TickResult(b.(snake := [head] + b.snake, score := b.score + 1, food := nextFood),
                     ScoreNotice(b.score + 1))
        else
          TickResult(b.(snake := [head] + b.snake[..|b.snake| - 1]), Quiet)
  }

  /** A tick ends the game exactly when the head leaves the grid in walls
      mode or lands on a current segment (the tail included); the snake and
      the score then stay as they were. */
  lemma StepEndsGame(b: Board, mode: Mode, d: Dir, nextFood: Cell)
    requires b.snake != [] && !b.gameOver
    ensures var r := Step(b, mode, d, nextFood);
            var raw := Advance(b.snake[0], d);
            r.board.gameOver <==> (mode == Walls && !InGrid(raw)) || Placed(mode, raw) in b.snake
    ensures var r := Step(b, mode, d, nextFood);
            r.board.gameOver ==>
              r.board == b.(gameOver := true) && r.notice == GameOverNotice(b.score)
  {
  }

  /** In walls mode, a head outside the grid ends the game and changes nothing else. */
  lemma StepHitsWall(b: Board, d: Dir, nextFood: Cell)
    requires b.snake != [] && !b.gameOver
    requires !InGrid(Advance(b.snake[0], d))
    ensures Step(b, Walls, d, nextFood) == TickResult(b.(gameOver := true), GameOverNotice(b.score))
  {
  }

  /** A surviving tick onto the food puts the new head in front and keeps every
      segment: the snake and the score both grow by exactly one. */
  lemma StepEats(b: Board, mode: Mode, d: Dir, nextFood: Cell)
    requires b.snake != [] && !b.gameOver
    requires !Step(b, mode, d, nextFood).board.gameOver
    requires Placed(mode, Advance(b.snake[0], d)) == b.food
    ensures var r := Step(b, mode, d, nextFood).board;
            && r.snake == [b.food] + b.snake
            && |r.snake| == |b.snake| + 1
            && r.score == b.score + 1
            && r.food == nextFood
    ensures Step(b, mode, d, nextFood).notice == ScoreNotice(b.score + 1)
  {
  }

  /** A surviving tick elsewhere puts the new head in front and drops the last
      segment: the length, the score and the food stay the same. */
  lemma StepMoves(b: Board, mode: Mode, d: Dir, nextFood: Cell)
    requires b.snake != [] && !b.gameOver
    requires !Step(b, mode, d, nextFood).board.gameOver
    requires Placed(mode, Advance(b.snake[0], d)) != b.food
    ensures var r := Step(b, mode, d, nextFood).board;
            && |r.snake| == |b.snake|
            && r.snake[1..] == b.snake[..|b.snake| - 1]
            && r.score == b.score
            && r.food == b.food
    ensures Step(b, mode, d, nextFood).notice == Quiet
  {
  }

  /** A surviving tick moves the head by the unit vector of `d`: exactly in
      walls mode, and up to a whole turn around the grid in pass-through mode. */
  lemma StepMovesHeadByDelta(b: Board, mode: Mode, d: Dir, nextFood: Cell)
    requires BoardInv(b) && !b.gameOver
    requires !Step(b, mode, d, nextFood).board.gameOver
    ensures var h := b.snake[0];
            var h' := Step(b, mode, d, nextFood).board.snake[0];
            && (mode == Walls ==> h'.x == h.x + Delta(d).x && h'.y == h.y + Delta(d).y)
            && (h'.x - h.x - Delta(d).x) % GRID_SIZE == 0
            && (h'.y - h.y - Delta(d).y) % GRID_SIZE == 0
  {
    var raw := Advance(b.snake[0], d);
    WrapInRange(raw.x);
    WrapInRange(raw.y);
  }

  /** Once the game is over, ticks change nothing. */
  lemma StepAfterGameOver(b: Board, mode: Mode, d: Dir, nextFood: Cell)
    requires b.snake != [] && b.gameOver
    ensures Step(b, mode, d, nextFood) == TickResult(b, Quiet)
  {
  }

  /** A tick keeps the snake inside the grid and free of repeated cells,
      provided the new food is drawn from the grid. */
  lemma StepPreservesInv(b: Board, mode: Mode, d: Dir, nextFood: Cell)
    requires BoardInv(b) && InGrid(nextFood)
    ensures BoardInv(Step(b, mode, d, nextFood).board)
  {
    if !b.gameOver {
      var raw := Advance(b.snake[0], d);
      if !(mode == Walls && !InGrid(raw)) {
        var head := Placed(mode, raw);
        if mode == PassThrough {
          WrapInRange(raw.x);
          WrapInRange(raw.y);
        }
        assert InGrid(head);
        if head !in b.snake {
          var body := if head == b.food then b.snake else b.snake[..|b.snake| - 1];
          assert forall i :: 0 <= i < |body| ==> body[i] == b.snake[i];
          var s := [head] + body;
          assert forall i :: 1 <= i < |s| ==> s[i] == body[i - 1];
          assert forall i, j :: 0 <= i < j < |s| ==> s[i] != s[j];
        }
      }
    }
  }

  lemma InitialBoardValid()
    ensures BoardInv(InitialBoard) && !InitialBoard.gameOver
  {
  }

  /** The inputs of one tick: the direction in force and the food cell the
      random generator would pick. */
  datatype Input = Input(dir: Dir, nextFood: Cell)

  /** A whole game as a sequence of ticks. */
  function Run(b: Board, mode: Mode, inputs: seq<Input>): (r: Board)
    requires BoardInv(b)
    requires forall k :: 0 <= k < |inputs| ==> InGrid(inputs[k].nextFood)
    ensures BoardInv(r)
    decreases |inputs|
  {
    if inputs == [] then b
    else
      StepPreservesInv(b, mode, inputs[0].dir, inputs[0].nextFood);
      Run(Step(b, mode, inputs[0].dir, inputs[0].nextFood).board, mode, inputs[1..])
  }

  /** Every board reachable from the initial one satisfies the invariant. */
  lemma ReachableBoardsValid(mode: Mode, inputs: seq<Input>)
    requires forall k :: 0 <= k < |inputs| ==> InGrid(inputs[k].nextFood)
    ensures BoardInv(Run(InitialBoard, mode, inputs))
  {
  }

  /** After the game is over, no number of further ticks changes the board. */
  lemma {:induction false} RunAfterGameOver(b: Board, mode: Mode, inputs: seq<Input>)
    requires BoardInv(b) && b.gameOver
    requires forall k :: 0 <= k < |inputs| ==> InGrid(inputs[k].nextFood)
    ensures Run(b, mode, inputs) == b
    decreases |inputs|
  {
    if inputs != [] {
      RunAfterGameOver(b, mode, inputs[1..]);
    }
  }

  /** The drawing loop visits cell index `i` at column `i % GRID_SIZE` and row
      `floor(i / GRID_SIZE)`; for a non-negative `i` Dafny's `/` is that floor. */
  function CellAt(i: int): (c: Cell)
    requires 0 <= i < CELL_COUNT
    ensures InGrid(c)
  {
    Cell(i % GRID_SIZE, i / GRID_SIZE)
  }

  function IndexOf(c: Cell): (i: int)
    ensures InGrid(c) ==> 0 <= i < CELL_COUNT
  {
    c.y * GRID_SIZE + c.x
  }

  /** Every index of the board names a grid cell, and reading it back gives the index. */
  lemma CellAtIndexOf(i: int)
    requires 0 <= i < CELL_COUNT
    ensures InGrid(CellAt(i)) && IndexOf(CellAt(i)) == i
  {
  }

  /** Every grid cell has an index on the board, and that index draws it. */
  lemma IndexOfCellAt(c: Cell)
    requires InGrid(c)
    ensures 0 <= IndexOf(c) < CELL_COUNT && CellAt(IndexOf(c)) == c
  {
    var i := IndexOf(c);
    assert 0 <= c.y * GRID_SIZE <= (GRID_SIZE - 1) * GRID_SIZE;
    assert i / GRID_SIZE == c.y && i % GRID_SIZE == c.x by {
      LemmaDivModUnique(i, c.y, c.x);
    }
  }

  lemma LemmaDivModUnique(i: int, q: int, r: int)
    requires i == q * GRID_SIZE + r && 0 <= r < GRID_SIZE
    ensures i / GRID_SIZE == q && i % GRID_SIZE == r
  {
  }

  /** How one board square is drawn. */
  datatype CellView = CellView(isSnake: bool, isFood: bool)

  function Render(b: Board): (v: seq<CellView>)
    ensures |v| == CELL_COUNT
  {
    seq(CELL_COUNT, i requires 0 <= i < CELL_COUNT => CellView(CellAt(i) in b.snake, CellAt(i) == b.food))
  }

  /** Each grid cell is drawn at its own square, marked as snake exactly when a
      segment is there and as food exactly when the food is there. */
  lemma RenderShowsCell(b: Board, c: Cell)
    requires InGrid(c)
    ensures 0 <= IndexOf(c) < CELL_COUNT
    ensures Render(b)[IndexOf(c)] == CellView(c in b.snake, c == b.food)
  {
    IndexOfCellAt(c);
  }

  /** The state of one mounted game component. */
  class SnakeBoard {
    const mode: Mode
    var snake: seq<Cell>
    var food: Cell
    var dir: Dir
    var score: int
    var gameOver: bool

    function Current(): Board
      reads this
    {
      Board(snake, food, score, gameOver)
    }

    ghost predicate Valid()
      reads this
    {
      BoardInv(Current())
    }

    /** Mounting the component; a `mode` prop that is not passed defaults to "walls". */
    constructor (modeProp: Option<string>)
      ensures Valid()
      ensures mode == (if modeProp.None? then Walls else ModeOf(modeProp.value)) && dir == ArrowRight
      ensures Current() == InitialBoard
    {
      mode := if modeProp.None? then Walls else ModeOf(modeProp.value);
      snake := INIT_SNAKE;
      food := INIT_FOOD;
      dir := ArrowRight;
      score := 0;
      gameOver := false;
    }

    /** An arrow key press. */
    method SetDir(d: Dir)
      modifies this`dir
      ensures dir == d
    {
      dir := d;
    }

    /** The interval callback: copy the head, move it, check walls or wrap,
        check for a collision, then grow or shift the snake. */
    method Tick(nextFood: Cell) returns (notice: Notice)
      requires Valid() && InGrid(nextFood)
      modifies this
      ensures Valid()
      ensures dir == old(dir)
      ensures TickResult(Current(), notice) == Step(old(Current()), mode, dir, nextFood)
    {
      StepPreservesInv(Current(), mode, dir, nextFood);
      if gameOver {
        notice := Quiet;
        return;
      }
      var head := MoveHead(snake[0], dir);
      if mode == Walls {
        if head.x < 0 || head.x >= GRID_SIZE || head.y < 0 || head.y >= GRID_SIZE {
          gameOver := true;
          notice := GameOverNotice(score);
          return;
        }
      } else {
        head := WrapHead(head);
      }
      if head in snake {
        gameOver := true;
        notice := GameOverNotice(score);
        return;
      }
      notice := Slither(head, nextFood);
    }

    /** The rest of a surviving tick: the new head goes in front; on the food
        the tail stays, the score goes up and `nextFood` is placed, elsewhere
        the last segment is dropped. */
    method Slither(head: Cell, nextFood: Cell) returns (notice: Notice)
      requires snake != []
      modifies this`snake, this`score, this`food
      ensures head == old(food) ==>
                && snake == [head] + old(snake) && score == old(score) + 1 && food == nextFood
                && notice == ScoreNotice(old(score) + 1)
      ensures head != old(food) ==>
                && snake == [head] + old(snake)[..|old(snake)| - 1] && score == old(score) && food == old(food)
                && notice == Quiet
    {
      var newSnake := [head] + snake;
      if head == food {
        notice := ScoreNotice(score + 1);
        score := score + 1;
        food := nextFood;
      } else {
        newSnake := newSnake[..|newSnake| - 1];
        notice := Quiet;
      }
      snake := newSnake;
    }
  }
}
