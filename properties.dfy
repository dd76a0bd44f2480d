/** What one tick, one turn and a new game do, stated against the state
    before them. */
module GameProperties {
  import opened Directions
  import opened GameRules

  /** A value is among the aged counters exactly when it was one tick short. */
  lemma AgedMembership(e: seq<int>, v: int)
    ensures v in Aged(e) <==> v - 1 in e
  {
    if v in Aged(e) {
      var i :| 0 <= i < |e| && Aged(e)[i] == v;
      assert e[i] == v - 1;
    }
    if v - 1 in e {
      var i :| 0 <= i < |e| && e[i] == v - 1;
      assert Aged(e)[i] == v;
    }
  }

  /** The key fact about the tail chain: the duplicate pushed on growth and
      the entry popped afterwards cancel, so one move puts the reverse of the
      heading in front and drops the last entry unless the tail grows. */
  lemma ForwardTail(g: Game)
    requires |g.tail| >= 1
    ensures Forward(g).head == DirectionStep(g.head, g.direction)
    ensures Forward(g).direction == g.direction
    ensures Forward(g).fruit == g.fruit && Forward(g).mongoose == g.mongoose
    ensures Grows(g) ==> Forward(g).tail == [Reverse(g.direction)] + g.tail
    ensures !Grows(g) ==> Forward(g).tail == [Reverse(g.direction)] + g.tail[..|g.tail| - 1]
  {
    AgedMembership(g.eaten, |g.tail|);
    if Grows(g) {
      var pushed := g.tail + [g.tail[|g.tail| - 1]];
      assert pushed[..|pushed| - 1] == g.tail;
    }
  }

  /** Every counter ages by one tick; on growth the first counter that
      reached the tail length, and only that one, is removed. */
  lemma ForwardCounters(g: Game)
    requires |g.tail| >= 1
    ensures !Grows(g) ==>
      |Forward(g).eaten| == |g.eaten|
      && forall j :: 0 <= j < |g.eaten| ==> Forward(g).eaten[j] == g.eaten[j] + 1
    ensures Grows(g) ==>
      exists k :: 0 <= k < |g.eaten| && g.eaten[k] == |g.tail| - 1
        && (forall j :: 0 <= j < k ==> g.eaten[j] != |g.tail| - 1)
        && |Forward(g).eaten| == |g.eaten| - 1
        && (forall j :: 0 <= j < k ==> Forward(g).eaten[j] == g.eaten[j] + 1)
        && (forall j :: k <= j < |Forward(g).eaten| ==> Forward(g).eaten[j] == g.eaten[j + 1] + 1)
  {
    AgedMembership(g.eaten, |g.tail|);
    var aged := Aged(g.eaten);
    var k := IndexOf(aged, |g.tail|);
    var e := Forward(g).eaten;
    if Grows(g) {
      assert e == aged[..k] + aged[k + 1..];
      assert g.eaten[k] == |g.tail| - 1;
      forall j | 0 <= j < k ensures g.eaten[j] != |g.tail| - 1 && e[j] == g.eaten[j] + 1 {
        assert aged[..k][j] == aged[j];
      }
      forall j | k <= j < |e| ensures e[j] == g.eaten[j + 1] + 1 {
        assert e[j] == aged[j + 1];
      }
    } else {
      assert e == aged;
    }
  }

  /** The tail follows the head: after a move the tail cells are the old
      head cell followed by the old tail cells, less the last one unless the
      tail grows. */
  lemma ForwardCells(g: Game)
    requires |g.tail| >= 1
    ensures var cells := TailCells(g.head, g.tail);
      TailCells(Forward(g).head, Forward(g).tail)
        == [g.head] + (if Grows(g) then cells else cells[..|cells| - 1])
  {
    ForwardTail(g);
    var r := Forward(g);
    var rest := if Grows(g) then g.tail else g.tail[..|g.tail| - 1];
    assert r.tail == [Reverse(g.direction)] + rest;
    assert DirectionStep(r.head, r.tail[0]) == g.head;
    assert r.tail[1..] == rest;
    if !Grows(g) {
      TailCellsPrefix(g.head, g.tail, |g.tail| - 1);
    }
  }

  /** A tick fails exactly when the cell ahead is off the board, a mongoose,
      or a tail cell that stays occupied; the cell the tail's end leaves is
      safe unless the tail grows this tick. */
  lemma StepFailsIff(size: int, g: Game, kind: int, fruitDraws: seq<Point>, mongooseDraws: seq<Point>)
    requires |g.tail| >= 1
    requires StepPlaceable(size, g, fruitDraws, mongooseDraws)
    ensures var next := DirectionStep(g.head, g.direction);
      var cells := TailCells(g.head, g.tail);
      var staying := if Grows(g) then cells else cells[..|cells| - 1];
      var failed := !Step(size, g, kind, fruitDraws, mongooseDraws).0;
      failed <==> !InField(size, next) || next in g.mongoose || next in staying
  {
    ForwardCells(g);
    ForwardTail(g);
  }

  /** A failed tick rolls back the head and the tail only: the counters keep
      their ageing and any removal, and nothing else changes. */
  lemma StepRollback(size: int, g: Game, kind: int, fruitDraws: seq<Point>, mongooseDraws: seq<Point>)
    requires |g.tail| >= 1
    requires StepPlaceable(size, g, fruitDraws, mongooseDraws)
    requires !Step(size, g, kind, fruitDraws, mongooseDraws).0
    ensures var r := Step(size, g, kind, fruitDraws, mongooseDraws).1;
      r.head == g.head && r.tail == g.tail
      && r.direction == g.direction && r.fruit == g.fruit && r.mongoose == g.mongoose
      && r.eaten == Forward(g).eaten
  {
    ForwardTail(g);
  }

  /** A successful tick moves the snake as `Forward` does. Eating records a
      counter -1 and moves the fruit to a free cell off the head; otherwise
      the counters and the fruit stay as `Forward` left them. */
  lemma StepSuccess(size: int, g: Game, kind: int, fruitDraws: seq<Point>, mongooseDraws: seq<Point>)
    requires |g.tail| >= 1
    requires StepPlaceable(size, g, fruitDraws, mongooseDraws)
    requires Step(size, g, kind, fruitDraws, mongooseDraws).0
    ensures var r := Step(size, g, kind, fruitDraws, mongooseDraws).1;
      r.head == DirectionStep(g.head, g.direction)
      && r.direction == g.direction
      && r.tail == Forward(g).tail
      && InField(size, r.head) && r.head !in TailCells(r.head, r.tail) && r.head !in g.mongoose
    ensures var r := Step(size, g, kind, fruitDraws, mongooseDraws).1;
      r.head == g.fruit.pos ==>
        r.eaten == Forward(g).eaten + [-1]
        && r.fruit.kind == kind
        && Free(size, r.(mongoose := g.mongoose), r.fruit.pos) && r.fruit.pos != r.head
    ensures var r := Step(size, g, kind, fruitDraws, mongooseDraws).1;
      r.head != g.fruit.pos ==> r.eaten == Forward(g).eaten && r.fruit == g.fruit
  {
    ForwardTail(g);
    var moved := Forward(g);
    var fed := Feed(size, moved, kind, fruitDraws);
    assert fed.head == moved.head && fed.tail == moved.tail && fed.mongoose == g.mongoose;
    var r := Step(size, g, kind, fruitDraws, mongooseDraws).1;
    assert r.(mongoose := fed.mongoose) == fed;
  }

  /** A successful tick adds exactly one mongoose when the tail is more than
      five times as long as the mongoose list, and none otherwise; the
      existing ones stay. A new mongoose is on a free cell, off the head and
      off the fruit. */
  lemma StepMongoose(size: int, g: Game, kind: int, fruitDraws: seq<Point>, mongooseDraws: seq<Point>)
    requires |g.tail| >= 1
    requires StepPlaceable(size, g, fruitDraws, mongooseDraws)
    requires Step(size, g, kind, fruitDraws, mongooseDraws).0
    ensures var r := Step(size, g, kind, fruitDraws, mongooseDraws).1;
      var due := if |g.mongoose| == 0 then |r.tail| > 0 else |r.tail| > 5 * |g.mongoose|;
      |r.mongoose| == |g.mongoose| + (if due then 1 else 0)
      && r.mongoose[..|g.mongoose|] == g.mongoose
    ensures var r := Step(size, g, kind, fruitDraws, mongooseDraws).1;
      |r.mongoose| > |g.mongoose| ==>
        var m := r.mongoose[|g.mongoose|];
        Free(size, r.(mongoose := g.mongoose), m) && m != r.head && m != r.fruit.pos
  {
    ForwardTail(g);
    var r := Step(size, g, kind, fruitDraws, mongooseDraws).1;
    assert r.mongoose[..|g.mongoose|] == g.mongoose;
  }

  /** `resetGame`: the head at the corner heading down with a two-entry tail
      pointing up, no pending growth, one mongoose, and fruit and mongoose on
      distinct free cells off the head. */
  lemma ResetState(size: int, kind: int, fruitDraws: seq<Point>, mongooseDraws: seq<Point>)
    requires ResetPlaceable(size, kind, fruitDraws, mongooseDraws)
    ensures var r := Reset(size, kind, fruitDraws, mongooseDraws);
      r.head == Point(0, 0) && r.direction == Down && r.tail == [Up, Up] && r.eaten == []
      && |r.mongoose| == 1 && r.fruit.kind == kind
      && r.mongoose[0] != r.fruit.pos && r.mongoose[0] != r.head && r.fruit.pos != r.head
      && Free(size, r.(mongoose := []), r.fruit.pos) && Free(size, r.(mongoose := []), r.mongoose[0])
  {
  }

  /** The initial tail lies above the board: its cells are (0,-1) and (0,-2). */
  lemma StartTailOffBoard(size: int)
    ensures TailCells(Start().head, Start().tail) == [Point(0, -1), Point(0, -2)]
    ensures forall c :: c in TailCells(Start().head, Start().tail) ==> !InField(size, c)
  {
    assert TailCells(Point(0, -1), [Up]) == [Point(0, -2)];
  }

  /** The first tick of a new game heading down: the head enters (0,1) and
      the tail chain reads up, up again, the new first entry pointing back at
      the corner. */
  lemma FirstMove(size: int, g: Game, kind: int, fruitDraws: seq<Point>, mongooseDraws: seq<Point>)
    requires size >= 2
    requires g.head == Point(0, 0) && g.direction == Down && g.tail == [Up, Up] && g.eaten == []
    requires |g.mongoose| >= 1 && Point(0, 1) !in g.mongoose && g.fruit.pos != Point(0, 1)
    ensures StepPlaceable(size, g, fruitDraws, mongooseDraws)
    ensures Step(size, g, kind, fruitDraws, mongooseDraws).0
    ensures Step(size, g, kind, fruitDraws, mongooseDraws).1.head == Point(0, 1)
    ensures Step(size, g, kind, fruitDraws, mongooseDraws).1.tail == [Up, Up]
  {
    ForwardTail(g);
    assert !Grows(g);
    var moved := Forward(g);
    assert moved.tail == [Up, Up];
    assert TailCells(moved.head, moved.tail) == [Point(0, 0), Point(0, -1)];
    assert Free(size, moved, moved.head);
    assert !MongooseDue(moved);
  }

  /** A turn changes only the heading, and only for an arrow key that does
      not point at the neck. */
  lemma TurnEffect(g: Game, key: Key)
    requires |g.tail| >= 1
    ensures Turn(g, key) == g.(direction := Turn(g, key).direction)
    ensures key == Other ==> Turn(g, key).direction == g.direction
    ensures key != Other ==>
      (Turn(g, key).direction == KeyDirection(key) <==> g.tail[0] != KeyDirection(key) || g.direction == KeyDirection(key))
    ensures key != Other && g.tail[0] == KeyDirection(key) ==> Turn(g, key).direction == g.direction
  {
  }

  /** The first tail cell is the neck; a heading that differs from the first
      tail entry never leads into it. */
  lemma NeckNotAhead(g: Game)
    requires |g.tail| >= 1
    requires g.direction != g.tail[0]
    ensures DirectionStep(g.head, g.direction) != TailCells(g.head, g.tail)[0]
  {
    if DirectionStep(g.head, g.direction) == DirectionStep(g.head, g.tail[0]) {
      DirectionStepInjective(g.head, g.direction, g.tail[0]);
    }
  }
}
