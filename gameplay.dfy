/** The `Gameplay` class of Gameplay.ts: the game's state as fields that its
    methods update in place. Every method that changes a field is proved to
    leave exactly the state that the matching function of GameRules
    computes from the state before it; `CheckConditions` changes nothing.
    The constructor, `ResetGame`, `SetDirection` and `Step` also keep the
    invariant of GameInvariants. The helpers `SetFruit`, `SetMongoose` and
    `SnakeStepForward` do not promise it on their own: a move may leave the
    board, which `Step` then rolls back.

    `Math.random()` is not modelled: the fruit picture and the cells that
    the placement loops draw are parameters, `fruitDraws` and
    `mongooseDraws` being the successive cells a loop tries. */
module Gameplay {
  import opened Directions
  import opened Settings
  import opened GameRules
  import opened GameProperties
  import opened GameInvariants

  class Gameplay {
    const settings: GameSettings
    var direction: Direction
    var headPos: Point
    var fruit: Fruit
    var mongoose: seq<Point>
    var snakeTail: seq<Direction>
    var eatenFruits: seq<int>

    /** The fields as one value, for the functions of GameRules. */
    function State(): Game
      reads this
    {
      Game(headPos, direction, snakeTail, eatenFruits, fruit, mongoose)
    }

    ghost predicate Valid()
      reads this
    {
      Consistent(settings.fieldSize, State())
    }

    constructor (settings: GameSettings, fruitKind: int, fruitDraws: seq<Point>, mongooseDraws: seq<Point>)
      requires ResetPlaceable(settings.fieldSize, fruitKind, fruitDraws, mongooseDraws)
      requires 0 <= fruitKind < FruitKinds
      ensures this.settings == settings
      ensures State() == Reset(settings.fieldSize, fruitKind, fruitDraws, mongooseDraws)
      ensures Valid()
    {
      this.settings := settings;
      direction := Down;
      headPos := Point(0, 0);
      fruit := Fruit(0, Point(0, 0));
      mongoose := [];
      snakeTail := [];
      eatenFruits := [];
      new;
      ResetGame(fruitKind, fruitDraws, mongooseDraws);
    }

    /** `resetGame`: a new game on the same settings. */
    method ResetGame(fruitKind: int, fruitDraws: seq<Point>, mongooseDraws: seq<Point>)
      requires ResetPlaceable(settings.fieldSize, fruitKind, fruitDraws, mongooseDraws)
      requires 0 <= fruitKind < FruitKinds
      modifies this
      ensures State() == Reset(settings.fieldSize, fruitKind, fruitDraws, mongooseDraws)
      ensures Valid()
    {
      headPos := Point(0, 0);
      direction := Down;
      snakeTail := [Up, Up];
      eatenFruits := [];
      mongoose := [];
      assert State() == Start().(fruit := fruit);
      SameCellsSameFit(settings.fieldSize, Start(), State(), [headPos], fruitDraws);
      SetFruit(fruitKind, fruitDraws);
      assert State() == PlaceFruit(settings.fieldSize, Start(), fruitKind, fruitDraws);
      SetMongoose(mongooseDraws);
      ResetConsistent(settings.fieldSize, fruitKind, fruitDraws, mongooseDraws);
    }

    /** `setFruit`: try the draws in order until one is free and not the
        head, and put a fruit of picture `fruitKind` there. */
    method SetFruit(fruitKind: int, draws: seq<Point>)
      requires HasFit(settings.fieldSize, State(), [headPos], draws)
      modifies this`fruit
      ensures State() == PlaceFruit(settings.fieldSize, old(State()), fruitKind, draws)
    {
      ghost var target := FirstFit(settings.fieldSize, State(), [headPos], draws);
      var i := 0;
      while true
        invariant i <= target
        invariant State() == old(State())
        decreases target - i
      {
        var x, y := draws[i].x, draws[i].y;
        var free := CheckConditions(x, y);
        if free && !(x == headPos.x && y == headPos.y) {
          assert Fits(settings.fieldSize, State(), [headPos], draws[i]);
          fruit := Fruit(fruitKind, Point(x, y));
          return;
        }
        i := i + 1;
      }
    }

    /** `setMongoose`: try the draws in order until one is free and neither
        the fruit nor the head, and add a mongoose there. */
    method SetMongoose(draws: seq<Point>)
      requires HasFit(settings.fieldSize, State(), [fruit.pos, headPos], draws)
      modifies this`mongoose
      ensures State() == PlaceMongoose(settings.fieldSize, old(State()), draws)
    {
      ghost var target := FirstFit(settings.fieldSize, State(), [fruit.pos, headPos], draws);
      var i := 0;
      while true
        invariant i <= target
        invariant State() == old(State())
        decreases target - i
      {
        var x, y := draws[i].x, draws[i].y;
        var free := CheckConditions(x, y);
        if free && !(x == fruit.pos.x && y == fruit.pos.y) && !(x == headPos.x && y == headPos.y) {
          assert Fits(settings.fieldSize, State(), [fruit.pos, headPos], draws[i]);
          mongoose := mongoose + [Point(x, y)];
          return;
        }
        i := i + 1;
      }
    }

    /** `checkConditions`: whether the snake may enter (x, y). */
    method CheckConditions(x: int, y: int) returns (ok: bool)
      ensures ok == Free(settings.fieldSize, State(), Point(x, y))
    {
      if x < 0 || y < 0 || x >= settings.fieldSize || y >= settings.fieldSize {
        return false;
      }
      if Point(x, y) in mongoose {
        return false;
      }
      ghost var cells := TailCells(headPos, snakeTail);
      var a, b := headPos.x, headPos.y;
      var i := 0;
      while i < |snakeTail|
        invariant 0 <= i <= |snakeTail|
        invariant Point(a, b) == if i == 0 then headPos else cells[i - 1]
        invariant Point(x, y) !in cells[..i]
      {
        TailCellAt(headPos, snakeTail, i);
        var next := DirectionStep(Point(a, b), snakeTail[i]);
        a, b := next.x, next.y;
        if a == x && b == y {
          return false;
        }
        assert cells[..i + 1] == cells[..i] + [cells[i]];
        i := i + 1;
      }
      assert cells[..i] == cells;
      return true;
    }

    /** `setDirection`: an arrow key sets the heading unless it points at
        the neck; nothing else changes. */
    method SetDirection(key: Key)
      modifies this`direction
      ensures State() == Turn(old(State()), key)
      ensures old(Valid()) ==> Valid()
    {
      if key == ArrowDown && (|snakeTail| == 0 || snakeTail[0] != Down) {
        direction := Down;
      } else if key == ArrowUp && (|snakeTail| == 0 || snakeTail[0] != Up) {
        direction := Up;
      } else if key == ArrowRight && (|snakeTail| == 0 || snakeTail[0] != Right) {
        direction := Right;
      } else if key == ArrowLeft && (|snakeTail| == 0 || snakeTail[0] != Left) {
        direction := Left;
      }
      if old(Valid()) {
        TurnConsistent(settings.fieldSize, old(State()), key);
      }
    }

    /** `snakeStepForward`: move the head, age the counters, grow the tail
        if a counter reached its length, and shift the tail chain. */
    method SnakeStepForward()
      requires |snakeTail| >= 1
      modifies this`headPos, this`eatenFruits, this`snakeTail
      ensures State() == Forward(old(State()))
    {
      ghost var g := State();
      ghost var aged := Aged(g.eaten);
      ghost var pushed := if IndexOf(aged, |g.tail|) >= 0 then g.tail + [g.tail[|g.tail| - 1]] else g.tail;
      headPos := DirectionStep(headPos, direction);
      eatenFruits := Aged(eatenFruits);
      var growPos := IndexOf(eatenFruits, |snakeTail|);
      if growPos >= 0 {
        snakeTail := snakeTail + [snakeTail[|snakeTail| - 1]];
        eatenFruits := eatenFruits[..growPos] + eatenFruits[growPos + 1..];
      }
      assert snakeTail == pushed && eatenFruits == Forward(g).eaten;
      snakeTail := snakeTail[..|snakeTail| - 1];
      snakeTail := [Reverse(direction)] + snakeTail;
      assert snakeTail == Forward(g).tail;
    }

    /** `step`: one tick. On a collision only the head and the tail are
        restored and the result is false. */
    method Step(fruitKind: int, fruitDraws: seq<Point>, mongooseDraws: seq<Point>) returns (ok: bool)
      requires Valid()
      requires StepPlaceable(settings.fieldSize, State(), fruitDraws, mongooseDraws)
      requires 0 <= fruitKind < FruitKinds
      modifies this
      ensures (ok, State()) == GameRules.Step(settings.fieldSize, old(State()), fruitKind, fruitDraws, mongooseDraws)
      ensures Valid()
    {
      ghost var size, g := settings.fieldSize, State();
      StepConsistent(size, g, fruitKind, fruitDraws, mongooseDraws);
      var prevHeadPos := headPos;
      var prevSnakeTail := snakeTail;
      SnakeStepForward();
      ghost var moved := State();
      var free := CheckConditions(headPos.x, headPos.y);
      if !free {
        headPos := prevHeadPos;
        snakeTail := prevSnakeTail;
        return false;
      }
      if headPos == fruit.pos {
        eatenFruits := eatenFruits + [-1];
        FitIgnoresCounters(size, moved, moved.eaten + [-1], [moved.head], fruitDraws);
        SetFruit(fruitKind, fruitDraws);
      }
      assert State() == Feed(size, moved, fruitKind, fruitDraws);
      if MongooseDue(State()) {
        MongooseDueIgnoresKind(size, moved, fruitKind, fruitDraws);
        SameCellsSameFit(size, Feed(size, moved, 0, fruitDraws), State(), [fruit.pos, headPos], mongooseDraws);
        SetMongoose(mongooseDraws);
      }
      return true;
    }
  }

  /** Placement looks at the head, the tail and the mongooses only. */
  lemma SameCellsSameFit(size: int, g: Game, h: Game, avoid: seq<Point>, draws: seq<Point>)
    requires g.head == h.head && g.tail == h.tail && g.mongoose == h.mongoose
    requires HasFit(size, g, avoid, draws)
    ensures HasFit(size, h, avoid, draws)
  {
    var i :| 0 <= i < |draws| && Fits(size, g, avoid, draws[i]);
    assert Fits(size, h, avoid, draws[i]);
  }
}
