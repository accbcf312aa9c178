/**
 * The first version of the game (the top-level script): a snake whose tail
 * is recycled as the new head every tick, that appends copies of its tail
 * when it eats, and whose displayed score is its length minus the start
 * length.
 */
module ClassicSnake {
  import opened Wrappers
  import opened Geometry
  import opened Directions

  /** `snakeStartLength`. */
  const SnakeStartLength: nat := 5
  /** Parts appended for each food eaten (`append(4)`). */
  const FoodGrowth: nat := 4

  /** `keycodeDirectionMap`: the four arrow keys; every other key code is unmapped. */
  function KeyDirection(keyCode: int): (r: Option<Direction>)
    ensures r.Some? <==> 37 <= keyCode <= 40
  {
    if keyCode == 37 then Some(Left)
    else if keyCode == 38 then Some(Up)
    else if keyCode == 39 then Some(Right)
    else if keyCode == 40 then Some(Down)
    else None
  }

  /** The score `paint` shows for a snake of the given length. */
  function Score(length: nat): int
  {
    length - SnakeStartLength
  }

  /** What `moveForward` makes of the parts: the tail is dropped and a new head appears one cell ahead. */
  function MovedForward(parts: seq<Point>, d: Direction): (r: seq<Point>)
    requires |parts| >= 2
    ensures |r| == |parts|
  {
    [ApplyMovement(parts[0], d, 1)] + parts[..|parts| - 1]
  }

  /** What `append(n)` makes of the parts: `n` copies of the tail at the end. */
  function Appended(parts: seq<Point>, n: nat): (r: seq<Point>)
    requires |parts| > 0
    ensures |r| == |parts| + n
  {
    parts + seq(n, _ => parts[|parts| - 1])
  }

  /** One tick of `computeLogic` as far as the body goes: move, then grow by four if the head met the food. */
  function AfterTick(parts: seq<Point>, d: Direction, ate: bool): (r: seq<Point>)
    requires |parts| >= 2
    ensures |r| == |parts| + if ate then FoodGrowth else 0
    ensures r[0] == ApplyMovement(parts[0], d, 1)
  {
    var moved := MovedForward(parts, d);
    if ate then Appended(moved, FoodGrowth) else moved
  }

  /** A tick as the body sees it: the direction in force and whether the food was eaten. */
  datatype TickEvent = TickEvent(direction: Direction, ate: bool)

  /**
   * The body after a run of ticks that does not restart the snake: it has
   * grown by four parts per meal and by nothing else.
   */
  function Replay(parts: seq<Point>, events: seq<TickEvent>): (r: seq<Point>)
    requires |parts| >= 2
    ensures |r| == |parts| + FoodGrowth * Meals(events)
    decreases |events|
  {
    if events == [] then parts
    else Replay(AfterTick(parts, events[0].direction, events[0].ate), events[1..])
  }

  /** The number of ticks in which food was eaten. */
  function Meals(events: seq<TickEvent>): nat
  {
    if events == [] then 0 else (if events[0].ate then 1 else 0) + Meals(events[1..])
  }

  /**
   * The displayed score grows by exactly four per food eaten and by nothing
   * otherwise over a run without a restart; it follows from `Replay`'s length.
   */
  lemma ScoreCountsMeals(parts: seq<Point>, events: seq<TickEvent>)
    requires |parts| >= 2
    ensures Score(|Replay(parts, events)|) == Score(|parts|) + FoodGrowth * Meals(events)
  {
  }

  /** `moveForward` keeps the length, drops the tail, and puts the new head next to the old one. */
  lemma MovedForwardShape(parts: seq<Point>, d: Direction)
    requires |parts| >= 2
    ensures MovedForward(parts, d)[1..] == parts[..|parts| - 1]
    ensures Adjacent(parts[0], MovedForward(parts, d)[0])
  {
    StepIsAdjacent(parts[0], d, d);
  }

  class Snake {
    var direction: Direction
    var parts: seq<Point>

    /** `new Snake(length)`: `length` parts at (length, 2), (length - 1, 2), ..., (1, 2), head first, heading right. */
    constructor (length: nat)
      ensures |parts| == length
      ensures forall j :: 0 <= j < length ==> parts[j] == Point(length - j, 2)
      ensures direction == Right
    {
      direction := Right;
      var start: seq<Point> := [];
      var i := length;
      while i > 0
        invariant 0 <= i <= length
        invariant |start| == length - i
        invariant forall j :: 0 <= j < |start| ==> start[j] == Point(length - j, 2)
      {
        start := start + [Point(i, 2)];
        i := i - 1;
      }
      parts := start;
    }

    /** `getHead`: the first part, `undefined` for an empty body. */
    function Head(): (h: Option<Point>)
      reads this
      ensures h.Some? <==> |parts| > 0
      ensures h.Some? ==> h.value == parts[0]
    {
      if |parts| > 0 then Some(parts[0]) else None
    }

    /** `getButt`: the last part, `undefined` for an empty body. */
    function Butt(): (t: Option<Point>)
      reads this
      ensures t.Some? <==> |parts| > 0
      ensures t.Some? ==> t.value == parts[|parts| - 1]
    {
      if |parts| > 0 then Some(parts[|parts| - 1]) else None
    }

    /** `popButt`: removes and returns the last part, `undefined` for an empty body. */
    method PopButt() returns (butt: Option<Point>)
      modifies this`parts
      ensures old(parts) == [] ==> butt == None && parts == []
      ensures old(parts) != [] ==> butt.Some? && parts + [butt.value] == old(parts)
    {
      if |parts| == 0 {
        butt := None;
      } else {
        butt := Some(parts[|parts| - 1]);
        parts := parts[..|parts| - 1];
      }
    }

    /**
     * `append(parts)`: pushes `n` new parts at the old tail's position. The
     * source reads the tail's coordinates, so a body to append to is required
     * once there is something to append.
     */
    method Append(n: nat)
      requires |parts| > 0 || n == 0
      modifies this`parts
      ensures |parts| == old(|parts|) + n
      ensures parts[..old(|parts|)] == old(parts)
      ensures forall i :: old(|parts|) <= i < |parts| ==> parts[i] == old(parts[|parts| - 1])
      ensures old(|parts|) > 0 ==> parts == Appended(old(parts), n)
    {
      if n == 0 {
        return;
      }
      var butt := parts[|parts| - 1];
      var i := 0;
      while i < n
        invariant 0 <= i <= n
        invariant parts == old(parts) + seq(i, _ => butt)
      {
        parts := parts + [butt];
        i := i + 1;
      }
    }

    /**
     * `moveForward`: the tail is popped and reused as the new head, one cell
     * ahead of the head in the snake's direction. The head is read after the
     * pop, so the source needs at least two parts.
     */
    method MoveForward()
      requires |parts| >= 2
      modifies this`parts
      ensures parts == MovedForward(old(parts), direction)
    {
      var snakeButt := parts[|parts| - 1];
      parts := parts[..|parts| - 1];
      var snakeHead := parts[0];
      if direction == Left {
        snakeButt := Point(snakeHead.x - 1, snakeHead.y);
      } else if direction == Up {
        snakeButt := Point(snakeHead.x, snakeHead.y - 1);
      } else if direction == Right {
        snakeButt := Point(snakeHead.x + 1, snakeHead.y);
      } else if direction == Down {
        snakeButt := Point(snakeHead.x, snakeHead.y + 1);
      }
      parts := [snakeButt] + parts;
    }

    /** `headCollidesWith` (the source fails on an empty body). */
    predicate HeadCollidesWith(item: Rect)
      reads this
      requires |parts| > 0
      ensures item.width == 1 && item.height == 1 ==>
        (HeadCollidesWith(item) <==> item.x == parts[0].x && item.y == parts[0].y)
    {
      CollidesWith(CellRect(parts[0]), item)
    }
  }

  /**
   * `onKeyDown`: a mapped key turns the snake unless the new direction is
   * the opposite of the current one; unmapped keys do nothing.
   */
  method OnKeyDown(snake: Snake, keyCode: int)
    modifies snake`direction
    ensures KeyDirection(keyCode) == None ==> snake.direction == old(snake.direction)
    ensures !IsOpposite(old(snake.direction), snake.direction)
    ensures KeyDirection(keyCode).Some? && !IsOpposite(KeyDirection(keyCode).value, old(snake.direction)) ==>
      snake.direction == KeyDirection(keyCode).value
    ensures snake.direction == old(snake.direction) || Some(snake.direction) == KeyDirection(keyCode)
  {
    var newDirection := KeyDirection(keyCode);
    if newDirection.Some? {
      if snake.direction != OppositeOf(newDirection.value) {
        snake.direction := newDirection.value;
      }
    }
  }
}
