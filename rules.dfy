/** The rules of the game (Gameplay.ts) as functions on a snapshot of the
    game's state. The class in module Gameplay changes its fields step by
    step; each of its methods is proved to leave the state one of these
    functions computes, and the lemmas here and in GameInvariants and
    GameGrowth say what the functions promise. */
module GameRules {
  import opened Directions

  /** `kind` selects one of `FruitKinds` pictures and plays no part in the rules. */
  datatype Fruit = Fruit(kind: int, pos: Point)

  const FruitKinds: int := 7

  /** Every field of a game that a rule reads or writes. The snake is its
      head cell and the chain `tail`: entry i is the heading that leads from
      segment i (the head being segment 0) to segment i + 1. `eaten` holds
      one age counter per fruit whose growth is still pending. */
  datatype Game = Game(
    head: Point,
    direction: Direction,
    tail: seq<Direction>,
    eaten: seq<int>,
    fruit: Fruit,
    mongoose: seq<Point>)

  /** The key codes `setDirection` reacts to; every other key is `Other`. */
  datatype Key = ArrowUp | ArrowDown | ArrowLeft | ArrowRight | Other

  // ---------------------------------------------------------------------
  // The tail chain

  /** The cells of the tail segments, found by walking `tail` from `head`. */
  function TailCells(head: Point, tail: seq<Direction>): (cells: seq<Point>)
    ensures |cells| == |tail|
    decreases |tail|
  {
    if tail == [] then []
    else
      var next := DirectionStep(head, tail[0]);
      [next] + TailCells(next, tail[1..])
  }

  /** Each tail cell is one step from the cell before it (the head for the first). */
  lemma {:induction false} TailCellAt(head: Point, tail: seq<Direction>, i: nat)
    requires i < |tail|
    ensures TailCells(head, tail)[i]
         == DirectionStep(if i == 0 then head else TailCells(head, tail)[i - 1], tail[i])
    decreases i
  {
    if i > 0 {
      TailCellAt(DirectionStep(head, tail[0]), tail[1..], i - 1);
    }
  }

  /** Cutting the chain cuts the walk at the same place. */
  lemma {:induction false} TailCellsPrefix(head: Point, tail: seq<Direction>, k: nat)
    requires k <= |tail|
    ensures TailCells(head, tail[..k]) == TailCells(head, tail)[..k]
    decreases k
  {
    if k > 0 {
      var next := DirectionStep(head, tail[0]);
      assert tail[..k][1..] == tail[1..][..k - 1];
      TailCellsPrefix(next, tail[1..], k - 1);
    }
  }

  // ---------------------------------------------------------------------
  // Collision test (`checkConditions`)

  predicate InField(size: int, p: Point)
  {
    0 <= p.x < size && 0 <= p.y < size
  }

  /** A cell the snake may enter: on the board, not a mongoose and not a
      tail cell. The head's own cell is not compared. */
  predicate Free(size: int, g: Game, p: Point)
  {
    InField(size, p) && p !in g.mongoose && p !in TailCells(g.head, g.tail)
  }

  // ---------------------------------------------------------------------
  // Placement by rejection sampling (`setFruit`, `setMongoose`)

  /** A draw that placement accepts: free, and none of the cells in `avoid`. */
  predicate Fits(size: int, g: Game, avoid: seq<Point>, p: Point)
  {
    Free(size, g, p) && p !in avoid
  }

  predicate HasFit(size: int, g: Game, avoid: seq<Point>, draws: seq<Point>)
  {
    exists i :: 0 <= i < |draws| && Fits(size, g, avoid, draws[i])
  }

  /** The index of the first accepted draw, or |draws| when none is accepted. */
  function FirstFit(size: int, g: Game, avoid: seq<Point>, draws: seq<Point>): (i: nat)
    ensures i <= |draws|
    ensures i < |draws| ==> Fits(size, g, avoid, draws[i])
    ensures forall k :: 0 <= k < i ==> !Fits(size, g, avoid, draws[k])
    decreases |draws|
  {
    if draws == [] then 0
    else if Fits(size, g, avoid, draws[0]) then 0
    else 1 + FirstFit(size, g, avoid, draws[1..])
  }

  /** `setFruit`: the fruit moves to the first draw that is free and not the head. */
  function PlaceFruit(size: int, g: Game, kind: int, draws: seq<Point>): Game
    requires HasFit(size, g, [g.head], draws)
  {
    var i := FirstFit(size, g, [g.head], draws);
    g.(fruit := Fruit(kind, draws[i]))
  }

  /** `setMongoose`: a mongoose is appended at the first draw that is free and
      is neither the fruit nor the head. */
  function PlaceMongoose(size: int, g: Game, draws: seq<Point>): Game
    requires HasFit(size, g, [g.fruit.pos, g.head], draws)
  {
    var i := FirstFit(size, g, [g.fruit.pos, g.head], draws);
    g.(mongoose := g.mongoose + [draws[i]])
  }

  // ---------------------------------------------------------------------
  // Turning (`setDirection`)

  /** The heading an arrow key asks for. */
  function KeyDirection(key: Key): Direction
    requires key != Other
  {
    match key
    case ArrowUp => Up
    case ArrowDown => Down
    case ArrowLeft => Left
    case ArrowRight => Right
  }

  /** An arrow key sets the heading unless it points at the neck, the first
      tail segment; every other key is ignored. */
  function Turn(g: Game, key: Key): Game
  {
    if key != Other && (|g.tail| == 0 || g.tail[0] != KeyDirection(key)) then
      g.(direction := KeyDirection(key))
    else
      g
  }

  // ---------------------------------------------------------------------
  // Moving forward (`snakeStepForward`)

  /** `indexOf`: the first position of `v` in `s`, or -1. */
  function IndexOf(s: seq<int>, v: int): (r: int)
    ensures -1 <= r < |s|
    ensures r >= 0 ==> s[r] == v && v !in s[..r]
    ensures r == -1 ==> v !in s
    decreases |s|
  {
    if s == [] then -1
    else if s[0] == v then 0
    else
      var rest := IndexOf(s[1..], v);
      if rest < 0 then -1 else rest + 1
  }

  /** Every growth counter one tick older. */
  function Aged(counters: seq<int>): seq<int>
  {
    seq(|counters|, i requires 0 <= i < |counters| => counters[i] + 1)
  }

  /** The head moves one cell; every counter ages; when a counter reaches the
      tail length, the first such counter is dropped and the last tail entry
      is duplicated; then the last entry is dropped and the reverse of the
      heading is put in front. */
  function Forward(g: Game): Game
    requires |g.tail| >= 1
  {
    var head := DirectionStep(g.head, g.direction);
    var aged := Aged(g.eaten);
    var growPos := IndexOf(aged, |g.tail|);
    var pushed := if growPos >= 0 then g.tail + [g.tail[|g.tail| - 1]] else g.tail;
    var counters := if growPos >= 0 then aged[..growPos] + aged[growPos + 1..] else aged;
    g.(head := head,
       tail := [Reverse(g.direction)] + pushed[..|pushed| - 1],
       eaten := counters)
  }

  /** Whether the next `Forward` grows the tail: some counter is one short of
      the tail length before it ages. */
  predicate Grows(g: Game)
  {
    |g.tail| - 1 in g.eaten
  }

  // ---------------------------------------------------------------------
  // One tick (`step`) and a new game (`resetGame`)

  /** The JavaScript test `tail.length / mongoose.length > 5`, on integers;
      with no mongoose the quotient is Infinity for a non-empty tail and NaN
      for an empty one. */
  predicate MongooseDue(g: Game)
  {
    if |g.mongoose| == 0 then |g.tail| > 0 else |g.tail| > 5 * |g.mongoose|
  }

  /** Eating: a counter -1 is recorded and the fruit moves. */
  function Feed(size: int, g: Game, kind: int, fruitDraws: seq<Point>): Game
    requires g.head == g.fruit.pos ==> HasFit(size, g, [g.head], fruitDraws)
  {
    if g.head == g.fruit.pos then
      FitIgnoresCounters(size, g, g.eaten + [-1], [g.head], fruitDraws);
      PlaceFruit(size, g.(eaten := g.eaten + [-1]), kind, fruitDraws)
    else
      g
  }

  /** Placement depends on the cells and not on the counters or the fruit. */
  lemma FitIgnoresCounters(size: int, g: Game, eaten: seq<int>, avoid: seq<Point>, draws: seq<Point>)
    requires HasFit(size, g, avoid, draws)
    ensures HasFit(size, g.(eaten := eaten), avoid, draws)
  {
    var i :| 0 <= i < |draws| && Fits(size, g, avoid, draws[i]);
    assert Fits(size, g.(eaten := eaten), avoid, draws[i]);
  }

  /** The draws suffice for every placement one tick may need; without a
      fitting draw the source samples for ever. */
  predicate StepPlaceable(size: int, g: Game, fruitDraws: seq<Point>, mongooseDraws: seq<Point>)
    requires |g.tail| >= 1
  {
    var moved := Forward(g);
    Free(size, moved, moved.head) ==>
      (moved.head == moved.fruit.pos ==> HasFit(size, moved, [moved.head], fruitDraws))
      && var fed := Feed(size, moved, 0, fruitDraws);
         MongooseDue(fed) ==> HasFit(size, fed, [fed.fruit.pos, fed.head], mongooseDraws)
  }

  /** `step`: move forward; on a collision restore the head and the tail only
      and report failure; otherwise eat, maybe add a mongoose, report success. */
  function Step(size: int, g: Game, kind: int, fruitDraws: seq<Point>, mongooseDraws: seq<Point>): (bool, Game)
    requires |g.tail| >= 1
    requires StepPlaceable(size, g, fruitDraws, mongooseDraws)
  {
    var moved := Forward(g);
    if !Free(size, moved, moved.head) then
      (false, moved.(head := g.head, tail := g.tail))
    else
      var fed := Feed(size, moved, kind, fruitDraws);
      MongooseDueIgnoresKind(size, moved, kind, fruitDraws);
      if MongooseDue(fed) then (true, PlaceMongoose(size, fed, mongooseDraws)) else (true, fed)
  }

  /** The fruit's picture plays no part in where the next mongoose may go. */
  lemma MongooseDueIgnoresKind(size: int, g: Game, kind: int, fruitDraws: seq<Point>)
    requires g.head == g.fruit.pos ==> HasFit(size, g, [g.head], fruitDraws)
    ensures var a := Feed(size, g, kind, fruitDraws); var b := Feed(size, g, 0, fruitDraws);
      a == b.(fruit := a.fruit) && a.fruit.pos == b.fruit.pos
  {
  }

  /** The state `resetGame` starts from before it places the fruit; the fruit
      given here is overwritten by the placement. */
  function Start(): Game
  {
    Game(Point(0, 0), Down, [Up, Up], [], Fruit(0, Point(0, 0)), [])
  }

  predicate ResetPlaceable(size: int, kind: int, fruitDraws: seq<Point>, mongooseDraws: seq<Point>)
  {
    HasFit(size, Start(), [Start().head], fruitDraws)
    && var fed := PlaceFruit(size, Start(), kind, fruitDraws);
       HasFit(size, fed, [fed.fruit.pos, fed.head], mongooseDraws)
  }

  /** `resetGame`: the start position, then one fruit and one mongoose. */
  function Reset(size: int, kind: int, fruitDraws: seq<Point>, mongooseDraws: seq<Point>): Game
    requires ResetPlaceable(size, kind, fruitDraws, mongooseDraws)
  {
    PlaceMongoose(size, PlaceFruit(size, Start(), kind, fruitDraws), mongooseDraws)
  }
}
