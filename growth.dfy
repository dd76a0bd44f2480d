/** Delayed growth. Eating records a counter -1; every move first ages the
    counters and then compares them with the tail length, so a fruit eaten
    by a snake whose tail has L entries makes the tail grow on the (L + 1)-th
    move after the one that ate it, when the eaten cell would otherwise drop
    off the end of the tail. */
module GameGrowth {
  import opened Directions
  import opened GameRules
  import opened GameProperties

  /** `n` moves in a row with no collision test and no eating. */
  function Ticks(g: Game, n: nat): (r: Game)
    requires |g.tail| >= 1
    ensures |r.tail| >= |g.tail|
    decreases n
  {
    if n == 0 then g
    else
      ForwardTail(g);
      Ticks(Forward(g), n - 1)
  }

  /** One move with a single pending counter: it ages, and it is removed with
      the tail growing exactly when it reaches the tail length. */
  lemma ForwardLoneCounter(g: Game, c: int)
    requires |g.tail| >= 1 && g.eaten == [c]
    ensures c + 1 == |g.tail| ==> Forward(g).eaten == [] && |Forward(g).tail| == |g.tail| + 1
    ensures c + 1 != |g.tail| ==> Forward(g).eaten == [c + 1] && |Forward(g).tail| == |g.tail|
  {
    ForwardTail(g);
    var aged := Aged(g.eaten);
    assert aged == [c + 1];
    assert IndexOf(aged, |g.tail|) == if c + 1 == |g.tail| then 0 else -1;
    assert Grows(g) <==> c + 1 == |g.tail|;
  }

  /** While a lone counter stays below the tail length it only ages, and the
      tail keeps its length. */
  lemma {:induction false} PendingGrowth(g: Game, c: int, j: nat)
    requires |g.tail| >= 1 && g.eaten == [c]
    requires c + j < |g.tail|
    ensures Ticks(g, j).eaten == [c + j]
    ensures |Ticks(g, j).tail| == |g.tail|
    decreases j
  {
    if j > 0 {
      ForwardLoneCounter(g, c);
      PendingGrowth(Forward(g), c + 1, j - 1);
    }
  }

  /** The move on which a lone counter reaches the tail length grows the tail
      by one entry and removes the counter. */
  lemma {:induction false} GrowthFires(g: Game, c: int)
    requires |g.tail| >= 1 && g.eaten == [c]
    requires c < |g.tail|
    ensures Ticks(g, |g.tail| - c).eaten == []
    ensures |Ticks(g, |g.tail| - c).tail| == |g.tail| + 1
  {
    var n := |g.tail| - c;
    PendingGrowth(g, c, n - 1);
    var before := Ticks(g, n - 1);
    TicksLast(g, n);
    ForwardLoneCounter(before, c + n - 1);
  }

  /** The last of `n` moves is one `Forward` after the first `n - 1`. */
  lemma {:induction false} TicksLast(g: Game, n: nat)
    requires |g.tail| >= 1 && n >= 1
    ensures Ticks(g, n) == Forward(Ticks(g, n - 1))
    decreases n
  {
    if n > 1 {
      ForwardTail(g);
      TicksLast(Forward(g), n - 1);
    }
  }

  /** A fruit just eaten with a tail of L entries: no growth during the next
      L moves, growth on the move after them. */
  lemma EatenFruitGrowth(g: Game)
    requires |g.tail| >= 1 && g.eaten == [-1]
    ensures |Ticks(g, |g.tail|).tail| == |g.tail|
    ensures Ticks(g, |g.tail|).eaten == [|g.tail| - 1]
    ensures |Ticks(g, |g.tail| + 1).tail| == |g.tail| + 1
    ensures Ticks(g, |g.tail| + 1).eaten == []
  {
    PendingGrowth(g, -1, |g.tail|);
    GrowthFires(g, -1);
  }

  /** A tick that fails on the move where a lone counter fires loses that
      growth: the rollback restores the tail, but the counter stays removed. */
  lemma RollbackLosesGrowth(size: int, g: Game, kind: int, fruitDraws: seq<Point>, mongooseDraws: seq<Point>)
    requires |g.tail| >= 1 && g.eaten == [|g.tail| - 1]
    requires StepPlaceable(size, g, fruitDraws, mongooseDraws)
    requires !Step(size, g, kind, fruitDraws, mongooseDraws).0
    ensures Step(size, g, kind, fruitDraws, mongooseDraws).1.tail == g.tail
    ensures Step(size, g, kind, fruitDraws, mongooseDraws).1.eaten == []
  {
    StepRollback(size, g, kind, fruitDraws, mongooseDraws);
    ForwardLoneCounter(g, |g.tail| - 1);
  }
}
