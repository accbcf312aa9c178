/**
 * The snake of the later game: an ordered sequence of 1-by-1 parts, head
 * first, that moves by recycling its tail as the new head or, while growth
 * is pending, by prepending a new head.
 */
module SnakeBody {
  import opened Wrappers
  import opened Geometry
  import opened Directions

  /** `SNAKE_START_LENGT`: parts of a fresh snake. */
  const StartLength: nat := 5
  /** `snakeGrowthOnFeed` of a fresh snake. */
  const StartGrowthOnFeed: nat := 4

  /** What a snake can run into, as the source tells them apart with `instanceof`. */
  datatype EntityKind = SnakeEntity | BombEntity | FoodEntity | CoinEntity | OtherEntity

  /** The part of a snake's state that movement changes. */
  datatype Body = Body(parts: seq<Point>, growthLeft: nat)

  /** Consecutive parts sit on neighbouring cells. */
  predicate Connected(parts: seq<Point>)
  {
    forall i :: 0 < i < |parts| ==> Adjacent(parts[i - 1], parts[i])
  }

  /**
   * One iteration of the loop in `move`: with growth pending, a new head one
   * cell ahead is put in front of all the old parts; otherwise the tail is
   * removed and reappears one cell ahead of the head.
   */
  function Step(b: Body, d: Direction): (r: Body)
    requires |b.parts| > 0
    ensures |r.parts| > 0 && r.parts[0] == ApplyMovement(b.parts[0], d, 1)
    ensures b.growthLeft > 0 ==>
      |r.parts| == |b.parts| + 1 && r.growthLeft == b.growthLeft - 1
      && forall i :: 0 <= i < |b.parts| ==> r.parts[i + 1] == b.parts[i]
    ensures b.growthLeft == 0 ==>
      |r.parts| == |b.parts| && r.growthLeft == 0
      && forall i :: 0 < i < |r.parts| ==> r.parts[i] == b.parts[i - 1]
  {
    var newHead := ApplyMovement(b.parts[0], d, 1);
    if b.growthLeft > 0 then Body([newHead] + b.parts, b.growthLeft - 1)
    else Body([newHead] + b.parts[..|b.parts| - 1], 0)
  }

  /** `move(direction, amount)`: `amount` steps in the same direction. The body never gets shorter. */
  function Advance(b: Body, d: Direction, amount: nat): (r: Body)
    requires |b.parts| > 0
    ensures |r.parts| >= |b.parts|
    decreases amount
  {
    if amount == 0 then b else Step(Advance(b, d, amount - 1), d)
  }

  function Min(a: nat, b: nat): nat { if a <= b then a else b }

  /**
   * The length rule: `amount` steps add one part per step while growth is
   * pending and keep the length otherwise, consuming that much growth.
   */
  lemma {:induction false} AdvanceLength(b: Body, d: Direction, amount: nat)
    requires |b.parts| > 0
    ensures |Advance(b, d, amount).parts| == |b.parts| + Min(amount, b.growthLeft)
    ensures Advance(b, d, amount).growthLeft == b.growthLeft - Min(amount, b.growthLeft)
  {
    if amount > 0 {
      AdvanceLength(b, d, amount - 1);
    }
  }

  /** After `amount` > 0 steps the head stands `amount` cells further in the direction. */
  lemma {:induction false} AdvanceHead(b: Body, d: Direction, amount: nat)
    requires |b.parts| > 0 && amount > 0
    ensures Advance(b, d, amount).parts[0] == ApplyMovement(b.parts[0], d, amount)
  {
    if amount > 1 {
      AdvanceHead(b, d, amount - 1);
    }
  }

  /** While the pending growth covers every step, all old parts stay where they were, behind the new ones. */
  lemma {:induction false} AdvanceGrowingKeepsParts(b: Body, d: Direction, amount: nat)
    requires |b.parts| > 0 && amount <= b.growthLeft
    ensures |Advance(b, d, amount).parts| == |b.parts| + amount
    ensures Advance(b, d, amount).parts[amount..] == b.parts
  {
    if amount > 0 {
      AdvanceGrowingKeepsParts(b, d, amount - 1);
      AdvanceLength(b, d, amount - 1);
      var prev := Advance(b, d, amount - 1);
      var r := Step(prev, d);
      assert r.parts[1..] == prev.parts;
      assert r.parts[amount..] == r.parts[1..][amount - 1..];
    }
  }

  /** Without pending growth, `amount` <= length steps drop the last `amount` parts and shift the rest back. */
  lemma {:induction false} AdvanceShiftingDropsTail(b: Body, d: Direction, amount: nat)
    requires |b.parts| > 0 && b.growthLeft == 0 && amount <= |b.parts|
    ensures |Advance(b, d, amount).parts| == |b.parts|
    ensures Advance(b, d, amount).parts[amount..] == b.parts[..|b.parts| - amount]
  {
    AdvanceLength(b, d, amount);
    if amount > 0 {
      AdvanceShiftingDropsTail(b, d, amount - 1);
      AdvanceLength(b, d, amount - 1);
      var prev := Advance(b, d, amount - 1);
      var r := Step(prev, d);
      ShiftedSuffix(r.parts, prev.parts, b.parts, amount);
    }
  }

  /** If `next` is `prev` shifted back one cell and `prev` from `amount - 1` on is a prefix of `orig`, so is `next` from `amount` on. */
  lemma ShiftedSuffix(next: seq<Point>, prev: seq<Point>, orig: seq<Point>, amount: nat)
    requires 0 < amount <= |orig| && |prev| == |orig| && |next| == |prev|
    requires forall i :: 0 < i < |next| ==> next[i] == prev[i - 1]
    requires prev[amount - 1..] == orig[..|orig| - amount + 1]
    ensures next[amount..] == orig[..|orig| - amount]
  {
    forall i | 0 <= i < |orig| - amount
      ensures next[amount..][i] == orig[i]
    {
      assert next[amount + i] == prev[amount - 1 + i];
      assert prev[amount - 1..][i] == orig[..|orig| - amount + 1][i];
    }
  }

  /** Moving keeps the body connected. */
  lemma {:induction false} AdvanceKeepsConnected(b: Body, d: Direction, amount: nat)
    requires |b.parts| > 0 && Connected(b.parts)
    ensures Connected(Advance(b, d, amount).parts)
  {
    if amount > 0 {
      AdvanceKeepsConnected(b, d, amount - 1);
      var prev := Advance(b, d, amount - 1);
      var r := Step(prev, d);
      StepIsAdjacent(prev.parts[0], d, d);
      forall i | 0 < i < |r.parts|
        ensures Adjacent(r.parts[i - 1], r.parts[i])
      {
        if i > 1 {
          assert r.parts[i - 1] == prev.parts[i - 2] && r.parts[i] == prev.parts[i - 1];
        }
      }
    }
  }

  /** Some part of the body overlaps `other`. */
  ghost predicate AnyPartCollides(parts: seq<Point>, other: Rect)
  {
    exists i :: 0 <= i < |parts| && CollidesWith(CellRect(parts[i]), other)
  }

  /** Some part of the body lies inside `other`. */
  ghost predicate AnyPartInside(parts: seq<Point>, other: Rect)
  {
    exists i :: 0 <= i < |parts| && IsInside(CellRect(parts[i]), other)
  }

  class Snake {
    var parts: seq<Point>
    var growthLeft: nat
    var growthOnFeed: nat
    var applesEaten: nat
    var canDefuseBombs: bool
    var direction: Direction
    var dead: bool

    /** The movement state as a value. */
    function Value(): Body
      reads this
    {
      Body(parts, growthLeft)
    }

    /** A fresh snake: five parts from (7, 2) down to (3, 2), head first, heading right. */
    constructor ()
      ensures |parts| == StartLength
      ensures forall j :: 0 <= j < |parts| ==> parts[j] == Point(StartLength + 2 - j, 2)
      ensures Connected(parts)
      ensures growthLeft == 0 && growthOnFeed == StartGrowthOnFeed && applesEaten == 0
      ensures !canDefuseBombs && direction == Right && !dead
    {
      var start: seq<Point> := [];
      var i := StartLength + 2;
      while i > 2
        invariant 2 <= i <= StartLength + 2
        invariant |start| == StartLength + 2 - i
        invariant forall j :: 0 <= j < |start| ==> start[j] == Point(StartLength + 2 - j, 2)
      {
        start := start + [Point(i, 2)];
        i := i - 1;
      }
      parts := start;
      growthLeft := 0;
      growthOnFeed := StartGrowthOnFeed;
      applesEaten := 0;
      canDefuseBombs := false;
      direction := Right;
      dead := false;
    }

    /** `getHead`: the first part, or `undefined` for an empty body. */
    function Head(): (h: Option<Point>)
      reads this
      ensures h.Some? <==> |parts| > 0
      ensures h.Some? ==> h.value == parts[0]
    {
      if |parts| > 0 then Some(parts[0]) else None
    }

    /** `getButt`: the last part, or `undefined` for an empty body. */
    function Butt(): (t: Option<Point>)
      reads this
      ensures t.Some? <==> |parts| > 0
      ensures t.Some? ==> t.value == parts[|parts| - 1]
    {
      if |parts| > 0 then Some(parts[|parts| - 1]) else None
    }

    /** `popButt`: removes and returns the last part; on an empty body it returns `undefined`. */
    method PopButt() returns (butt: Option<Point>)
      modifies this`parts
      ensures old(parts) == [] ==> butt == None && parts == []
      ensures old(parts) != [] ==> butt.Some? && parts + [butt.value] == old(parts)
    {
      if |parts| == 0 {
        butt := None;
      } else {
        butt := Some(parts[|parts| - 1]);
        parts := parts[..|parts| - 1];
      }
    }

    /** `grow(parts)`: adds to the pending growth. */
    method Grow(amount: nat)
      modifies this`growthLeft
      ensures growthLeft == old(growthLeft) + amount
    {
      growthLeft := growthLeft + amount;
    }

    /**
     * `move(direction, amount)`. The source reads the head of an empty body
     * and fails, so a non-empty body is required.
     */
    method Move(d: Direction, amount: nat)
      requires |parts| > 0
      modifies this`parts, this`growthLeft
      ensures Value() == Advance(old(Value()), d, amount)
      ensures |parts| > 0 && (amount > 0 ==> parts[0] == ApplyMovement(old(parts[0]), d, amount))
    {
      ghost var start := Value();
      var i := 0;
      while i < amount
        invariant 0 <= i <= amount
        invariant |parts| > 0
        invariant Value() == Advance(start, d, i)
      {
        MoveOnce(d);
        i := i + 1;
      }
      if amount > 0 {
        AdvanceHead(start, d, amount);
        assert parts[0] == Advance(start, d, amount).parts[0];
      }
    }

    /** The body of `move`'s loop: grow at the head, or recycle the tail as the new head. */
    method MoveOnce(d: Direction)
      requires |parts| > 0
      modifies this`parts, this`growthLeft
      ensures Value() == Step(old(Value()), d)
    {
      var snakeHead := parts[0];
      if growthLeft > 0 {
        var newPart := ApplyMovement(snakeHead, d, 1);
        growthLeft := growthLeft - 1;
        parts := [newPart] + parts;
      } else {
        var snakeButt := parts[|parts| - 1];
        parts := parts[..|parts| - 1];
        if d == Left {
          snakeButt := Point(snakeHead.x - 1, snakeHead.y);
        } else if d == Up {
          snakeButt := Point(snakeHead.x, snakeHead.y - 1);
        } else if d == Right {
          snakeButt := Point(snakeHead.x + 1, snakeHead.y);
        } else if d == Down {
          snakeButt := Point(snakeHead.x, snakeHead.y + 1);
        }
        parts := [snakeButt] + parts;
      }
    }

    /**
     * `Snake.collidesWith`: true as soon as one part overlaps `other`; when
     * none does the loop falls off the end and the result is `undefined`,
     * never `false`.
     */
    method CollidesWith(other: Rect) returns (r: Option<bool>)
      ensures r == Some(true) <==> AnyPartCollides(parts, other)
      ensures r == None <==> !AnyPartCollides(parts, other)
    {
      var i := 0;
      while i < |parts|
        invariant 0 <= i <= |parts|
        invariant forall j :: 0 <= j < i ==> !Geometry.CollidesWith(CellRect(parts[j]), other)
      {
        if Geometry.CollidesWith(CellRect(parts[i]), other) {
          return Some(true);
        }
        i := i + 1;
      }
      return None;
    }

    /** `Snake.isInside`: true as soon as one part lies inside `other`, otherwise `undefined`. */
    method IsInside(other: Rect) returns (r: Option<bool>)
      ensures r == Some(true) <==> AnyPartInside(parts, other)
      ensures r == None <==> !AnyPartInside(parts, other)
    {
      var i := 0;
      while i < |parts|
        invariant 0 <= i <= |parts|
        invariant forall j :: 0 <= j < i ==> !Geometry.IsInside(CellRect(parts[j]), other)
      {
        if Geometry.IsInside(CellRect(parts[i]), other) {
          return Some(true);
        }
        i := i + 1;
      }
      return None;
    }

    /**
     * The self-collision scan of `update`: some part other than the head
     * overlaps the head, which for unit cells means it shares the head's cell.
     */
    method HeadHitsBody() returns (hit: bool)
      requires |parts| > 0
      ensures hit <==> exists i :: 0 < i < |parts| && parts[i] == parts[0]
    {
      hit := false;
      var i := 1;
      while i < |parts|
        invariant 1 <= i <= |parts|
        invariant hit <==> exists j :: 0 < j < i && parts[j] == parts[0]
      {
        CellsCollideIffSame(parts[0], parts[i]);
        if Geometry.CollidesWith(CellRect(parts[0]), CellRect(parts[i])) {
          hit := true;
        }
        i := i + 1;
      }
    }

    /**
     * `Snake.onCollide`: running into a snake, or into a bomb it cannot
     * defuse, kills the snake; food is eaten (the food dies, growth is
     * scheduled, the apple is counted); a coin dies. Anything else is ignored.
     */
    method OnCollide(other: EntityKind) returns (selfKilled: bool, otherKilled: bool)
      modifies this`dead, this`growthLeft, this`applesEaten
      ensures selfKilled <==> other == SnakeEntity || (other == BombEntity && !canDefuseBombs)
      ensures otherKilled <==> other == FoodEntity || other == CoinEntity
      ensures dead == (old(dead) || selfKilled)
      ensures other == FoodEntity ==>
        growthLeft == old(growthLeft) + growthOnFeed && applesEaten == old(applesEaten) + 1
      ensures other != FoodEntity ==> growthLeft == old(growthLeft) && applesEaten == old(applesEaten)
    {
      selfKilled, otherKilled := false, false;
      if other == SnakeEntity || (other == BombEntity && !canDefuseBombs) {
        dead := true;
        selfKilled := true;
      } else if other == FoodEntity {
        otherKilled := true;
        Grow(growthOnFeed);
        applesEaten := applesEaten + 1;
      } else if other == CoinEntity {
        otherKilled := true;
      }
    }

    /**
     * The "Cut in Half" purchase: a snake longer than two parts pops its
     * tail until only the front floor(n/2) parts remain; shorter snakes are
     * left alone.
     */
    method CutInHalf()
      modifies this`parts
      ensures old(|parts|) > 2 ==> parts == old(parts)[..old(|parts|) / 2]
      ensures old(|parts|) <= 2 ==> parts == old(parts)
    {
      var length := |parts|;
      if length > 2 {
        var i := length / 2;
        while i < length
          invariant length / 2 <= i <= length
          invariant parts == old(parts)[..length - (i - length / 2)]
        {
          var _ := PopButt();
          i := i + 1;
        }
      }
    }
  }
}
