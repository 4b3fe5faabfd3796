/**
  The scenario checks of `lancer_les_tests`, stated as lemmas about
  the engine: an isolated cell dies, the block is still, the blinker
  oscillates with period two.
 */
module Scenarios {
  import opened Life

  const Lonely: World := {(0, 0)}
  const Block: World := {(0, 0), (0, 1), (1, 0), (1, 1)}
  /** The blinker in its vertical phase. */
  const Vertical: World := {(0, -1), (0, 0), (0, 1)}
  /** The blinker in its horizontal phase. */
  const Horizontal: World := {(-1, 0), (0, 0), (1, 0)}

  /** One step of the sum over a suffix. */
  lemma CountLiveStep(s: seq<Cell>, m: World, k: nat)
    requires k < |s|
    ensures CountLive(s[k..], m) == Live(s[k], m) + CountLive(s[k + 1..], m)
  {
    assert s[k..][1..] == s[k + 1..];
  }

  /** The count over eight entries is the sum of eight terms. */
  lemma CountEight(s: seq<Cell>, m: World)
    requires |s| == 8
    ensures CountLive(s, m) ==
      Live(s[0], m) + Live(s[1], m) + Live(s[2], m) + Live(s[3], m) +
      Live(s[4], m) + Live(s[5], m) + Live(s[6], m) + Live(s[7], m)
  {
    assert s[0..] == s;
    CountLiveStep(s, m, 0);
    CountLiveStep(s, m, 1);
    CountLiveStep(s, m, 2);
    CountLiveStep(s, m, 3);
    CountLiveStep(s, m, 4);
    CountLiveStep(s, m, 5);
    CountLiveStep(s, m, 6);
    CountLiveStep(s, m, 7);
    assert s[8..] == [];
  }

  /** The live-neighbour count spelled out as one term per offset. */
  lemma CountSpelledOut(c: Cell, m: World)
    ensures LiveNeighbourCount(c, m) ==
      Live((c.0 - 1, c.1 - 1), m) + Live((c.0 - 1, c.1), m) + Live((c.0 - 1, c.1 + 1), m) +
      Live((c.0, c.1 - 1), m) + Live((c.0, c.1 + 1), m) +
      Live((c.0 + 1, c.1 - 1), m) + Live((c.0 + 1, c.1), m) + Live((c.0 + 1, c.1 + 1), m)
  {
    var s := Neighbours(c);
    CountEight(s, m);
    assert s[0] == (c.0 - 1, c.1 - 1) && s[1] == (c.0 - 1, c.1) && s[2] == (c.0 - 1, c.1 + 1);
    assert s[3] == (c.0, c.1 - 1) && s[4] == (c.0, c.1 + 1);
    assert s[5] == (c.0 + 1, c.1 - 1) && s[6] == (c.0 + 1, c.1) && s[7] == (c.0 + 1, c.1 + 1);
  }

  /** The four worlds as ranges of coordinates. */
  lemma ScenarioShapes()
    ensures forall v :: v in Block <==> 0 <= v.0 <= 1 && 0 <= v.1 <= 1
    ensures forall v :: v in Vertical <==> v.0 == 0 && -1 <= v.1 <= 1
    ensures forall v :: v in Horizontal <==> -1 <= v.0 <= 1 && v.1 == 0
  {
  }

  /** An isolated cell dies of under-population, and nothing is born around it. */
  lemma LonelyCellDies()
    ensures NextGeneration(Lonely) == {}
  {
    forall c
      ensures c !in NextGeneration(Lonely)
    {
      CountSpelledOut(c, Lonely);
      assert LiveNeighbourCount(c, Lonely) <= 1;
    }
  }

  /** Each cell of the block has three live neighbours; no dead cell has three. */
  lemma BlockRule(c: Cell)
    ensures MustLive(c, Block) <==> c in Block
  {
    if c in Block {
      BlockCellHasThree(c);
    } else {
      var n := LiveNeighbourCount(c, Block);
      ScenarioShapes();
      CountSpelledOut(c, Block);
      if -1 <= c.0 <= 2 && -1 <= c.1 <= 2 {
        assert n <= 2;
      } else {
        assert n == 0;
      }
    }
  }

  /** Each cell of the block sees the other three. */
  lemma BlockCellHasThree(c: Cell)
    requires c in Block
    ensures LiveNeighbourCount(c, Block) == 3
  {
    ScenarioShapes();
    CountSpelledOut(c, Block);
  }

  /** The 2x2 block is a fixed point. */
  lemma BlockIsStill()
    ensures NextGeneration(Block) == Block
  {
    forall c
      ensures c in NextGeneration(Block) <==> c in Block
    {
      BlockRule(c);
    }
  }

  lemma VerticalRule(c: Cell)
    ensures MustLive(c, Vertical) <==> c in Horizontal
  {
    var n := LiveNeighbourCount(c, Vertical);
    ScenarioShapes();
    CountSpelledOut(c, Vertical);
    if c in Horizontal {
      assert c in Vertical ==> n == 2;
      assert c !in Vertical ==> n == 3;
    } else {
      assert c in Vertical ==> n <= 1;
      assert c !in Vertical ==> n != 3;
    }
  }

  lemma HorizontalRule(c: Cell)
    ensures MustLive(c, Horizontal) <==> c in Vertical
  {
    var n := LiveNeighbourCount(c, Horizontal);
    ScenarioShapes();
    CountSpelledOut(c, Horizontal);
    if c in Vertical {
      assert c in Horizontal ==> n == 2;
      assert c !in Horizontal ==> n == 3;
    } else {
      assert c in Horizontal ==> n <= 1;
      assert c !in Horizontal ==> n != 3;
    }
  }

  lemma VerticalBecomesHorizontal()
    ensures NextGeneration(Vertical) == Horizontal
  {
    forall c
      ensures c in NextGeneration(Vertical) <==> c in Horizontal
    {
      VerticalRule(c);
    }
  }

  lemma HorizontalBecomesVertical()
    ensures NextGeneration(Horizontal) == Vertical
  {
    forall c
      ensures c in NextGeneration(Horizontal) <==> c in Vertical
    {
      HorizontalRule(c);
    }
  }

  /** The blinker turns from vertical to horizontal and back: an oscillator of period two. */
  lemma BlinkerOscillates()
    ensures NextGeneration(Vertical) == Horizontal != Vertical
    ensures NextGeneration(NextGeneration(Vertical)) == Vertical
  {
    VerticalBecomesHorizontal();
    HorizontalBecomesVertical();
    assert Horizontal != Vertical by {
      ScenarioShapes();
      assert (-1, 0) in Horizontal;
    }
  }

  /** The block stays still for every number of generations. */
  lemma BlockStaysStill(n: nat)
    ensures Advance(Block, n) == Block
  {
    BlockIsStill();
    FixedPointStaysFixed(NextGeneration, Block, n);
  }

  /** Every even number of generations brings the vertical blinker back. */
  lemma BlinkerPeriodTwo(k: nat)
    ensures Advance(Vertical, 2 * k) == Vertical
  {
    BlinkerOscillates();
    PeriodTwoReturns(NextGeneration, Vertical, k);
  }
}
