/**
  The Game of Life engine: a world is the finite set of its live cells on
  the unbounded integer plane, and one generation is computed by evaluating
  the survival/birth rule on the candidate frontier of the world.
 */
module Life {

  /** A grid position (x, y); coordinates are unbounded integers. */
  type Cell = (int, int)

  /** The live cells; every cell not in the set is dead. */
  type World = set<Cell>

  /** The Moore neighbourhood relation: distinct cells at most one step apart on each axis. */
  predicate Adjacent(a: Cell, b: Cell) {
    a != b && -1 <= a.0 - b.0 <= 1 && -1 <= a.1 - b.1 <= 1
  }

  /** The offsets of the eight neighbours, in the order the source lists them. */
  const Offsets: seq<(int, int)> :=
    [(-1, -1), (-1, 0), (-1, 1),
     ( 0, -1),          ( 0, 1),
     ( 1, -1), ( 1, 0), ( 1, 1)]

  /** The offsets are exactly the non-zero steps of at most one on each axis. */
  lemma OffsetsAreMooreSteps()
    ensures forall i, j :: 0 <= i < j < |Offsets| ==> Offsets[i] != Offsets[j]
    ensures forall d :: d in Offsets <==> Adjacent((0, 0), d)
  {
    forall d | Adjacent((0, 0), d)
      ensures d in Offsets
    {
      if d.0 == -1 {
        assert d == Offsets[0] || d == Offsets[1] || d == Offsets[2];
      } else if d.0 == 0 {
        assert d == Offsets[3] || d == Offsets[4];
      } else {
        assert d == Offsets[5] || d == Offsets[6] || d == Offsets[7];
      }
    }
  }

  /** c moved by the offset d. */
  function Shift(c: Cell, d: (int, int)): Cell {
    (c.0 + d.0, c.1 + d.1)
  }

  /** Any sequence holding c shifted by each offset, in order, lists the Moore neighbours of c once each. */
  lemma ShiftedOffsetsAreNeighbours(c: Cell, r: seq<Cell>)
    requires |r| == |Offsets|
    requires forall i :: 0 <= i < |r| ==> r[i] == Shift(c, Offsets[i])
    ensures forall i, j :: 0 <= i < j < |r| ==> r[i] != r[j]
    ensures forall v :: v in r <==> Adjacent(c, v)
  {
    OffsetsAreMooreSteps();
    forall v
      ensures v in r <==> Adjacent(c, v)
    {
      var d := (v.0 - c.0, v.1 - c.1);
      if d in Offsets {
        var i :| 0 <= i < |Offsets| && Offsets[i] == d;
        assert r[i] == v;
      }
      assert Adjacent((0, 0), d) <==> Adjacent(c, v);
    }
  }

  /** The eight neighbours of c, one per offset, in the order of the offsets. */
  function Neighbours(c: Cell): (r: seq<Cell>)
    ensures |r| == 8
    ensures forall i :: 0 <= i < |r| ==> r[i] == Shift(c, Offsets[i])
    ensures forall i, j :: 0 <= i < j < |r| ==> r[i] != r[j]
    ensures forall v :: v in r <==> Adjacent(c, v)
  {
    var r := seq(8, i requires 0 <= i < 8 => Shift(c, Offsets[i]));
    ShiftedOffsetsAreNeighbours(c, r);
    r
  }

  /** The neighbours of c as a set. */
  function NeighbourSet(c: Cell): (r: set<Cell>)
    ensures forall v :: v in r <==> Adjacent(c, v)
  {
    set v | v in Neighbours(c)
  }

  lemma AdjacentSymmetric(a: Cell, b: Cell)
    ensures a in Neighbours(b) <==> b in Neighbours(a)
  {
  }

  /** The term one entry adds to a count: 1 when v is live in m, 0 otherwise. */
  function Live(v: Cell, m: World): nat {
    if v in m then 1 else 0
  }

  /** How many entries of s are live in m: the sum of 1 over the live entries. */
  function CountLive(s: seq<Cell>, m: World): (n: nat)
    ensures n <= |s|
  {
    if s == [] then 0 else Live(s[0], m) + CountLive(s[1..], m)
  }

  /** The live cells among the entries of a sequence without repetitions are counted once each. */
  lemma {:induction false} CountLiveIsCardinality(s: seq<Cell>, m: World)
    requires forall i, j :: 0 <= i < j < |s| ==> s[i] != s[j]
    ensures CountLive(s, m) == |(set v | v in s) * m|
  {
    if s != [] {
      CountLiveIsCardinality(s[1..], m);
      var tail := (set v | v in s[1..]) * m;
      assert s[0] !in tail;
      if s[0] in m {
        assert (set v | v in s) * m == tail + {s[0]};
      } else {
        assert (set v | v in s) * m == tail;
      }
    }
  }

  /** A positive count has a live witness. */
  lemma {:induction false} CountLivePositive(s: seq<Cell>, m: World)
    requires CountLive(s, m) > 0
    ensures exists v :: v in s && v in m
  {
    if s[0] !in m {
      CountLivePositive(s[1..], m);
      var v :| v in s[1..] && v in m;
      assert v in s;
    }
  }

  /** The number of live neighbours of c in m. */
  function LiveNeighbourCount(c: Cell, m: World): (n: nat)
    ensures n <= 8
  {
    CountLive(Neighbours(c), m)
  }

  /** The count is the number of live cells among the neighbours of c. */
  lemma LiveNeighbourCountIsCardinality(c: Cell, m: World)
    ensures LiveNeighbourCount(c, m) == |NeighbourSet(c) * m|
  {
    CountLiveIsCardinality(Neighbours(c), m);
  }

  /** The survival/birth rule: a live cell survives with 2 or 3 live neighbours,
      a dead cell is born with exactly 3. */
  predicate MustLive(c: Cell, m: World) {
    var n := LiveNeighbourCount(c, m);
    if c in m then n == 2 || n == 3 else n == 3
  }

  /** The rule stated on the set of live neighbours. */
  lemma MustLiveRule(c: Cell, m: World)
    ensures MustLive(c, m) <==>
              var live := |NeighbourSet(c) * m|;
              if c in m then live == 2 || live == 3 else live == 3
  {
    LiveNeighbourCountIsCardinality(c, m);
  }

  /** A cell that the rule makes live is live already or has a live neighbour. */
  lemma {:induction false} MustLiveNeedsSupport(c: Cell, m: World)
    requires MustLive(c, m)
    ensures c in m || exists v :: v in m && Adjacent(c, v)
  {
    if c !in m {
      CountLivePositive(Neighbours(c), m);
    }
  }

  /** Every neighbour of every cell of s. */
  function Spread(s: World): (r: World)
    ensures forall v :: v in r <==> exists c :: c in s && Adjacent(c, v)
  {
    var r := set c, v | c in s && v in Neighbours(c) :: v;
    assert forall v :: (exists c :: c in s && Adjacent(c, v)) ==> v in r by {
      forall v | exists c :: c in s && Adjacent(c, v)
        ensures v in r
      {
        var c :| c in s && Adjacent(c, v);
        assert v in Neighbours(c);
      }
    }
    r
  }

  /** The candidate frontier: the live cells together with all their neighbours. */
  function Frontier(m: World): (r: World)
    ensures m <= r
    ensures m == {} ==> r == {}
    ensures forall v :: v in r <==> v in m || exists c :: c in m && Adjacent(c, v)
  {
    m + Spread(m)
  }

  /** Copies the world, then adds the neighbours of each live cell in turn. */
  method Candidates(m: World) returns (candidates: World)
    ensures candidates == Frontier(m)
  {
    candidates := m;
    var todo := m;
    while todo != {}
      invariant todo <= m
      invariant candidates == m + Spread(m - todo)
      decreases todo
    {
      var c :| c in todo;
      assert Spread(m - (todo - {c})) == Spread(m - todo) + NeighbourSet(c);
      candidates := candidates + NeighbourSet(c);
      todo := todo - {c};
    }
  }

  /** No cell outside the frontier can satisfy the rule: the neighbour relation is
      symmetric, so a cell with a live neighbour is a neighbour of a live cell. */
  lemma FrontierComplete(m: World)
    ensures forall c :: MustLive(c, m) ==> c in Frontier(m)
  {
    forall c | MustLive(c, m)
      ensures c in Frontier(m)
    {
      MustLiveNeedsSupport(c, m);
      if c !in m {
        var v :| v in m && Adjacent(c, v);
        assert Adjacent(v, c);
      }
    }
  }

  /** The next generation: the frontier cells for which the rule holds in m. */
  function NextGeneration(m: World): (r: World)
    ensures r <= Frontier(m)
    ensures forall c :: c in r <==> MustLive(c, m)
  {
    FrontierComplete(m);
    set c | c in Frontier(m) && MustLive(c, m)
  }

  lemma EmptyWorldStaysEmpty()
    ensures NextGeneration({}) == {}
  {
  }

  /** The world after n applications of step, each to the result of the one before. */
  function Iterate(step: World -> World, m: World, n: nat): World
    decreases n
  {
    if n == 0 then m else Iterate(step, step(m), n - 1)
  }

  /** The world after n generations. */
  function Advance(m: World, n: nat): World {
    Iterate(NextGeneration, m, n)
  }

  /** A fixed point of one step stays unchanged for every number of steps. */
  lemma {:induction false} FixedPointStaysFixed(step: World -> World, m: World, n: nat)
    requires step(m) == m
    ensures Iterate(step, m, n) == m
  {
    if n > 0 {
      FixedPointStaysFixed(step, m, n - 1);
    }
  }

  /** A world that two steps bring back returns after every even number of steps. */
  lemma {:induction false} PeriodTwoReturns(step: World -> World, m: World, k: nat)
    requires step(step(m)) == m
    ensures Iterate(step, m, 2 * k) == m
  {
    if k > 0 {
      PeriodTwoReturns(step, m, k - 1);
      assert Iterate(step, m, 2 * k) == Iterate(step, step(step(m)), 2 * (k - 1));
    }
  }

  /** The empty world is absorbing: it stays empty for every number of generations. */
  lemma EmptyWorldStaysEmptyForever(n: nat)
    ensures Advance({}, n) == {}
  {
    EmptyWorldStaysEmpty();
    FixedPointStaysFixed(NextGeneration, {}, n);
  }

  /** The world moved by the offset d. */
  function Translate(m: World, d: (int, int)): (r: World)
    ensures forall c :: Shift(c, d) in r <==> c in m
  {
    set c | c in m :: Shift(c, d)
  }

  lemma {:induction false} CountLiveTranslated(s: seq<Cell>, t: seq<Cell>, m: World, d: (int, int))
    requires |s| == |t|
    requires forall i :: 0 <= i < |s| ==> t[i] == Shift(s[i], d)
    ensures CountLive(t, Translate(m, d)) == CountLive(s, m)
  {
    if s != [] {
      CountLiveTranslated(s[1..], t[1..], m, d);
    }
  }

  /** The rule does not depend on absolute position. */
  lemma MustLiveTranslated(c: Cell, m: World, d: (int, int))
    ensures MustLive(Shift(c, d), Translate(m, d)) <==> MustLive(c, m)
  {
    var s, t := Neighbours(c), Neighbours(Shift(c, d));
    assert forall i :: 0 <= i < |s| ==> t[i] == Shift(s[i], d);
    CountLiveTranslated(s, t, m, d);
  }

  lemma TranslatedMember(m: World, d: (int, int), v: Cell)
    ensures v in NextGeneration(Translate(m, d)) <==> v in Translate(NextGeneration(m), d)
  {
    var c := Shift(v, (-d.0, -d.1));
    assert v == Shift(c, d);
    MustLiveTranslated(c, m, d);
    assert v in NextGeneration(Translate(m, d)) <==> MustLive(v, Translate(m, d));
    assert c in NextGeneration(m) <==> MustLive(c, m);
  }

  /** Advancing a moved world is moving the advanced world. */
  lemma TranslationInvariant(m: World, d: (int, int))
    ensures NextGeneration(Translate(m, d)) == Translate(NextGeneration(m), d)
  {
    forall v
      ensures v in NextGeneration(Translate(m, d)) <==> v in Translate(NextGeneration(m), d)
    {
      TranslatedMember(m, d, v);
    }
  }
}
