/** The state invariant every game keeps: the head is on the board, no two
    snake segments, mongooses or the fruit share a cell, and the heading never
    points at the neck. The tail itself need not be on the board: a new game
    starts with its tail above the top row. */
module GameInvariants {
  import opened Directions
  import opened GameRules
  import opened GameProperties

  predicate Distinct(s: seq<Point>)
  {
    forall i, j :: 0 <= i < j < |s| ==> s[i] != s[j]
  }

  /** The cells of the head and of every tail segment, head first. */
  function SnakeCells(g: Game): seq<Point>
  {
    [g.head] + TailCells(g.head, g.tail)
  }

  predicate Consistent(size: int, g: Game)
  {
    && |g.tail| >= 2
    && g.direction != g.tail[0]
    && InField(size, g.head)
    && Distinct(SnakeCells(g))
    && |g.mongoose| >= 1
    && Distinct(g.mongoose)
    && (forall m :: m in g.mongoose ==> InField(size, m) && m !in SnakeCells(g))
    && InField(size, g.fruit.pos)
    && g.fruit.pos !in SnakeCells(g)
    && g.fruit.pos !in g.mongoose
    && 0 <= g.fruit.kind < FruitKinds
  }

  lemma DistinctCons(x: Point, s: seq<Point>)
    requires Distinct(s) && x !in s
    ensures Distinct([x] + s)
  {
    forall i, j | 0 <= i < j < |[x] + s| ensures ([x] + s)[i] != ([x] + s)[j] {
      if i > 0 {
        assert ([x] + s)[i] == s[i - 1] && ([x] + s)[j] == s[j - 1];
      } else {
        assert ([x] + s)[j] == s[j - 1];
      }
    }
  }

  lemma DistinctTail(x: Point, s: seq<Point>)
    requires Distinct([x] + s)
    ensures x !in s && Distinct(s)
  {
    forall j | 0 <= j < |s| ensures s[j] != x {
      assert ([x] + s)[0] == x && s[j] == ([x] + s)[j + 1];
    }
    forall i, j | 0 <= i < j < |s| ensures s[i] != s[j] {
      assert s[i] == ([x] + s)[i + 1] && s[j] == ([x] + s)[j + 1];
    }
  }

  lemma DistinctAppend(s: seq<Point>, x: Point)
    requires Distinct(s) && x !in s
    ensures Distinct(s + [x])
  {
  }

  /** A new game satisfies the invariant. */
  lemma ResetConsistent(size: int, kind: int, fruitDraws: seq<Point>, mongooseDraws: seq<Point>)
    requires ResetPlaceable(size, kind, fruitDraws, mongooseDraws)
    requires 0 <= kind < FruitKinds
    ensures Consistent(size, Reset(size, kind, fruitDraws, mongooseDraws))
  {
    var r := Reset(size, kind, fruitDraws, mongooseDraws);
    ResetState(size, kind, fruitDraws, mongooseDraws);
    StartTailOffBoard(size);
    assert TailCells(r.head, r.tail) == [Point(0, -1), Point(0, -2)];
    assert SnakeCells(r) == [Point(0, 0), Point(0, -1), Point(0, -2)];
    assert InField(size, r.fruit.pos);
  }

  /** Turning keeps the invariant: the heading never becomes the neck's. */
  lemma TurnConsistent(size: int, g: Game, key: Key)
    requires Consistent(size, g)
    ensures Consistent(size, Turn(g, key))
  {
    assert SnakeCells(Turn(g, key)) == SnakeCells(g);
  }

  /** After a successful tick the snake occupies the new head cell, the old
      head cell and the old tail cells that stay, all distinct. */
  lemma SuccessCells(size: int, g: Game, kind: int, fruitDraws: seq<Point>, mongooseDraws: seq<Point>)
    requires Consistent(size, g)
    requires StepPlaceable(size, g, fruitDraws, mongooseDraws)
    requires Step(size, g, kind, fruitDraws, mongooseDraws).0
    ensures var r := Step(size, g, kind, fruitDraws, mongooseDraws).1;
      Distinct(SnakeCells(r))
      && forall c :: c in SnakeCells(r) ==> c == r.head || c in SnakeCells(g)
  {
    var r := Step(size, g, kind, fruitDraws, mongooseDraws).1;
    StepSuccess(size, g, kind, fruitDraws, mongooseDraws);
    ForwardCells(g);
    var cells := TailCells(g.head, g.tail);
    var staying := if Grows(g) then cells else cells[..|cells| - 1];
    DistinctTail(g.head, cells);
    assert Distinct(staying);
    DistinctCons(g.head, staying);
    assert TailCells(r.head, r.tail) == [g.head] + staying;
    DistinctCons(r.head, [g.head] + staying);
    assert SnakeCells(r) == [r.head] + ([g.head] + staying);
  }

  /** The invariant survives any move of the snake that lands on a free cell,
      keeps the heading off the new neck, and adds at most one mongoose and
      moves the fruit only to free cells off the head. */
  lemma MoveKeepsConsistent(size: int, g: Game, r: Game)
    requires Consistent(size, g)
    requires |r.tail| >= |g.tail| && r.direction == g.direction && r.tail[0] == Reverse(g.direction)
    requires InField(size, r.head) && r.head !in g.mongoose
    requires Distinct(SnakeCells(r))
    requires forall c :: c in SnakeCells(r) ==> c == r.head || c in SnakeCells(g)
    requires r.fruit == g.fruit ==> r.fruit.pos != r.head
    requires r.fruit != g.fruit ==>
      Free(size, r.(mongoose := g.mongoose), r.fruit.pos) && r.fruit.pos != r.head
      && 0 <= r.fruit.kind < FruitKinds
    requires r.mongoose == g.mongoose
      || exists m :: r.mongoose == g.mongoose + [m]
           && Free(size, r.(mongoose := g.mongoose), m) && m != r.head && m != r.fruit.pos
    ensures Consistent(size, r)
  {
    if r.mongoose != g.mongoose {
      var m :| r.mongoose == g.mongoose + [m]
        && Free(size, r.(mongoose := g.mongoose), m) && m != r.head && m != r.fruit.pos;
      DistinctAppend(g.mongoose, m);
    }
  }

  /** A tick, successful or rolled back, keeps the invariant. */
  lemma StepConsistent(size: int, g: Game, kind: int, fruitDraws: seq<Point>, mongooseDraws: seq<Point>)
    requires Consistent(size, g)
    requires StepPlaceable(size, g, fruitDraws, mongooseDraws)
    requires 0 <= kind < FruitKinds
    ensures Consistent(size, Step(size, g, kind, fruitDraws, mongooseDraws).1)
  {
    var res := Step(size, g, kind, fruitDraws, mongooseDraws);
    var r := res.1;
    if !res.0 {
      StepRollback(size, g, kind, fruitDraws, mongooseDraws);
      assert SnakeCells(r) == SnakeCells(g);
    } else {
      StepSuccess(size, g, kind, fruitDraws, mongooseDraws);
      StepMongoose(size, g, kind, fruitDraws, mongooseDraws);
      SuccessCells(size, g, kind, fruitDraws, mongooseDraws);
      ForwardTail(g);
      if |r.mongoose| > |g.mongoose| {
        assert r.mongoose == g.mongoose + [r.mongoose[|g.mongoose|]];
      } else {
        assert r.mongoose == g.mongoose;
      }
      MoveKeepsConsistent(size, g, r);
    }
  }
}
