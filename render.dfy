/**
  The text renderer: a world is drawn as a population header followed by
  the rows of its bounding box, padded by one cell on every side, with
  " O " for a live cell and " . " for a dead one; the lines are joined by
  newlines. The empty world is drawn as a fixed message instead.
 */
module Render {
  import opened Life
  import opened Decimal

  const EmptyMessage: string := "Le monde est vide."
  const HeaderPrefix: string := "Population : "

  predicate NoNewline(s: string) {
    forall i :: 0 <= i < |s| ==> s[i] != '\n'
  }

  /** The lines with a newline between consecutive ones and none after the last. */
  function Join(lines: seq<string>): string {
    if |lines| == 0 then ""
    else if |lines| == 1 then lines[0]
    else lines[0] + "\n" + Join(lines[1..])
  }

  /** The lines of s: the pieces between newlines, in order. */
  function Split(s: string): (r: seq<string>)
    ensures |r| >= 1
  {
    if s == [] then [""]
    else
      var rest := Split(s[1..]);
      if s[0] == '\n' then [""] + rest else [[s[0]] + rest[0]] + rest[1..]
  }

  lemma {:induction false} SplitLine(l: string)
    requires NoNewline(l)
    ensures Split(l) == [l]
  {
    if l != [] {
      SplitLine(l[1..]);
      assert [l[0]] + l[1..] == l;
    }
  }

  lemma {:induction false} SplitLineThenRest(l: string, t: string)
    requires NoNewline(l)
    ensures Split(l + "\n" + t) == [l] + Split(t)
  {
    var s := l + "\n" + t;
    if l == [] {
      assert s[1..] == t;
    } else {
      assert s[1..] == l[1..] + "\n" + t;
      SplitLineThenRest(l[1..], t);
      assert [l[0]] + l[1..] == l;
    }
  }

  /** Splitting the joined lines gives the lines back. */
  lemma {:induction false} SplitJoin(lines: seq<string>)
    requires |lines| >= 1
    requires forall k :: 0 <= k < |lines| ==> NoNewline(lines[k])
    ensures Split(Join(lines)) == lines
  {
    if |lines| == 1 {
      SplitLine(lines[0]);
    } else {
      SplitJoin(lines[1..]);
      SplitLineThenRest(lines[0], Join(lines[1..]));
    }
  }

  /** The three characters drawn for the cell (x, y). */
  function CellText(m: World, x: int, y: int): (t: string)
    ensures |t| == 3 && '\n' !in t
  {
    if (x, y) in m then " O " else " . "
  }

  /** The row y over the w columns x0 .. x0 + w - 1, drawn left to right. */
  function Row(m: World, y: int, x0: int, w: nat): (r: string)
    ensures |r| == 3 * w
  {
    if w == 0 then "" else Row(m, y, x0, w - 1) + CellText(m, x0 + w - 1, y)
  }

  /** A row is drawn on a single line. */
  lemma {:induction false} RowHasNoNewline(m: World, y: int, x0: int, w: nat)
    ensures NoNewline(Row(m, y, x0, w))
  {
    if w > 0 {
      RowHasNoNewline(m, y, x0, w - 1);
      var r, t := Row(m, y, x0, w - 1), CellText(m, x0 + w - 1, y);
      assert forall i :: 0 <= i < |r + t| ==> (r + t)[i] == if i < |r| then r[i] else t[i - |r|];
    }
  }

  /** Column k of a row is drawn from the cell at x0 + k. */
  lemma {:induction false} RowColumn(m: World, y: int, x0: int, w: nat, k: nat)
    requires k < w
    ensures Row(m, y, x0, w)[3 * k .. 3 * k + 3] == CellText(m, x0 + k, y)
  {
    if k < w - 1 {
      RowColumn(m, y, x0, w - 1, k);
    }
  }

  /** The rows y0 .. y0 + h - 1, each over the w columns from x0. */
  function Rows(m: World, y0: int, h: nat, x0: int, w: nat): (r: seq<string>)
    ensures |r| == h
  {
    if h == 0 then [] else Rows(m, y0, h - 1, x0, w) + [Row(m, y0 + h - 1, x0, w)]
  }

  /** Entry j of the rows is the row y0 + j. */
  lemma {:induction false} RowsAt(m: World, y0: int, h: nat, x0: int, w: nat, j: nat)
    requires j < h
    ensures Rows(m, y0, h, x0, w)[j] == Row(m, y0 + j, x0, w)
  {
    if j < h - 1 {
      RowsAt(m, y0, h - 1, x0, w, j);
    }
  }

  /** The x coordinates of the live cells. */
  function Xs(m: World): set<int> {
    set c | c in m :: c.0
  }

  /** The y coordinates of the live cells. */
  function Ys(m: World): set<int> {
    set c | c in m :: c.1
  }

  /** The coordinate of c along the x axis (0) or the y axis (1). */
  function Coord(c: Cell, axis: bool): int {
    if axis then c.1 else c.0
  }

  /** The least coordinate of the live cells along an axis. */
  ghost function Least(m: World, axis: bool): (r: int)
    requires m != {}
    ensures forall c :: c in m ==> r <= Coord(c, axis)
    ensures exists c :: c in m && Coord(c, axis) == r
    decreases |m|
  {
    var c :| c in m;
    if m - {c} == {} then
      assert m == {c};
      Coord(c, axis)
    else
      var rest := Least(m - {c}, axis);
      if Coord(c, axis) < rest then Coord(c, axis) else rest
  }

  /** The greatest coordinate of the live cells along an axis. */
  ghost function Greatest(m: World, axis: bool): (r: int)
    requires m != {}
    ensures forall c :: c in m ==> Coord(c, axis) <= r
    ensures exists c :: c in m && Coord(c, axis) == r
    decreases |m|
  {
    var c :| c in m;
    if m - {c} == {} then
      assert m == {c};
      Coord(c, axis)
    else
      var rest := Greatest(m - {c}, axis);
      if Coord(c, axis) > rest then Coord(c, axis) else rest
  }

  /** The smallest rectangle holding every live cell. */
  datatype Box = Box(minX: int, maxX: int, minY: int, maxY: int)

  ghost function BoundingBox(m: World): (b: Box)
    requires m != {}
    ensures b.minX <= b.maxX && b.minY <= b.maxY
    ensures forall c :: c in m ==> b.minX <= c.0 <= b.maxX && b.minY <= c.1 <= b.maxY
  {
    Box(Least(m, false), Greatest(m, false), Least(m, true), Greatest(m, true))
  }

  /** Each side of the box touches a live cell, so no smaller rectangle holds them all. */
  lemma BoundingBoxIsTight(m: World)
    requires m != {}
    ensures var b := BoundingBox(m);
            && (exists c :: c in m && c.0 == b.minX) && (exists c :: c in m && c.0 == b.maxX)
            && (exists c :: c in m && c.1 == b.minY) && (exists c :: c in m && c.1 == b.maxY)
  {
  }

  predicate ValidBox(b: Box) {
    b.minX <= b.maxX && b.minY <= b.maxY
  }

  /** The header, then one row per y of the box padded by one, each over the padded columns. */
  function Lines(m: World, b: Box): seq<string>
    requires ValidBox(b)
  {
    [HeaderPrefix + NatToString(|m|)]
      + Rows(m, b.minY - 1, b.maxY - b.minY + 3, b.minX - 1, b.maxX - b.minX + 3)
  }

  /** The text of the world. */
  ghost function Rendered(m: World): string {
    if m == {} then EmptyMessage else Join(Lines(m, BoundingBox(m)))
  }

  /** The extreme coordinates of a non-empty world, as the builtin min and max pick them. */
  method Bounds(m: World) returns (minX: int, maxX: int, minY: int, maxY: int)
    requires m != {}
    ensures minX <= maxX && minY <= maxY
    ensures BoundingBox(m) == Box(minX, maxX, minY, maxY)
  {
    var xs, ys := Xs(m), Ys(m);
    ghost var b := BoundingBox(m);
    BoundingBoxIsTight(m);
    ghost var c0 :| c0 in m && c0.0 == b.minX;
    ghost var c1 :| c1 in m && c1.0 == b.maxX;
    ghost var c2 :| c2 in m && c2.1 == b.minY;
    ghost var c3 :| c3 in m && c3.1 == b.maxY;
    assert b.minX in xs && b.maxX in xs && b.minY in ys && b.maxY in ys;
    minX :| minX in xs && forall v :: v in xs ==> minX <= v;
    maxX :| maxX in xs && forall v :: v in xs ==> v <= maxX;
    minY :| minY in ys && forall v :: v in ys ==> minY <= v;
    maxY :| maxY in ys && forall v :: v in ys ==> v <= maxY;
    assert minX == b.minX && maxX == b.maxX;
    assert minY == b.minY && maxY == b.maxY;
  }

  /** Starts with the population header, then draws the rows of the box padded by one,
      each over the padded columns, one cell at a time. */
  method DrawLines(m: World, b: Box) returns (lines: seq<string>)
    requires ValidBox(b)
    ensures lines == Lines(m, b)
  {
    var header := HeaderPrefix + NatToString(|m|);
    ghost var all := Rows(m, b.minY - 1, b.maxY - b.minY + 3, b.minX - 1, b.maxX - b.minX + 3);
    lines := [header];
    for y := b.minY - 1 to b.maxY + 2
      invariant lines == [header] + all[..y - b.minY + 1]
    {
      var line := "";
      for x := b.minX - 1 to b.maxX + 2
        invariant line == Row(m, y, b.minX - 1, x - b.minX + 1)
      {
        line := line + CellText(m, x, y);
      }
      RowsAt(m, b.minY - 1, b.maxY - b.minY + 3, b.minX - 1, b.maxX - b.minX + 3, y - b.minY + 1);
      assert all[..y - b.minY + 2] == all[..y - b.minY + 1] + [line];
      lines := lines + [line];
    }
    assert all[..b.maxY - b.minY + 3] == all;
  }

  /** Finds the bounds, draws the lines, then joins them with newlines. */
  method FormatWorld(m: World) returns (text: string)
    ensures text == Rendered(m)
  {
    if m == {} {
      return EmptyMessage;
    }
    var minX, maxX, minY, maxY := Bounds(m);
    var lines := DrawLines(m, Box(minX, maxX, minY, maxY));
    text := Join(lines);
  }

  /** The header has no newline: it is a fixed prefix and decimal digits. */
  lemma HeaderHasNoNewline(n: nat)
    ensures NoNewline(HeaderPrefix + NatToString(n))
  {
    var header := HeaderPrefix + NatToString(n);
    forall i | 0 <= i < |header|
      ensures header[i] != '\n'
    {
      if i >= |HeaderPrefix| {
        assert header[i] == NatToString(n)[i - |HeaderPrefix|];
      }
    }
  }

  /** Splitting the joined lines of a box gives those lines back. */
  lemma LinesSplit(m: World, b: Box)
    requires ValidBox(b)
    ensures Split(Join(Lines(m, b))) == Lines(m, b)
  {
    var lines := Lines(m, b);
    var w := b.maxX - b.minX + 3;
    HeaderHasNoNewline(|m|);
    forall k | 1 <= k < |lines|
      ensures NoNewline(lines[k])
    {
      RowsAt(m, b.minY - 1, b.maxY - b.minY + 3, b.minX - 1, w, k - 1);
      RowHasNoNewline(m, b.minY - 1 + k - 1, b.minX - 1, w);
    }
    SplitJoin(lines);
  }

  /** The header comes first, then one line of the padded width per row of the padded box. */
  lemma LinesShape(m: World, b: Box)
    requires ValidBox(b)
    ensures var lines := Lines(m, b);
            && |lines| == b.maxY - b.minY + 4
            && lines[0] == HeaderPrefix + NatToString(|m|)
            && forall j :: 1 <= j < |lines| ==> |lines[j]| == 3 * (b.maxX - b.minX + 3)
  {
    var lines := Lines(m, b);
    var w := b.maxX - b.minX + 3;
    forall j | 1 <= j < |lines|
      ensures |lines[j]| == 3 * w
    {
      RowsAt(m, b.minY - 1, b.maxY - b.minY + 3, b.minX - 1, w, j - 1);
    }
  }

  /** The line for row y holds the cell (x, y) at column x - minX + 1 of the padded box. */
  lemma LinesCell(m: World, b: Box, x: int, y: int)
    requires ValidBox(b)
    requires b.minX - 1 <= x <= b.maxX + 1 && b.minY - 1 <= y <= b.maxY + 1
    ensures var j, k := y - b.minY + 2, x - b.minX + 1;
            && |Lines(m, b)| == b.maxY - b.minY + 4
            && |Lines(m, b)[j]| == 3 * (b.maxX - b.minX + 3)
            && Lines(m, b)[j][3 * k .. 3 * k + 3] == if (x, y) in m then " O " else " . "
  {
    var w := b.maxX - b.minX + 3;
    var rows := Rows(m, b.minY - 1, b.maxY - b.minY + 3, b.minX - 1, w);
    var lines := Lines(m, b);
    var j, k := y - b.minY + 2, x - b.minX + 1;
    var row := Row(m, y, b.minX - 1, w);
    assert lines == [HeaderPrefix + NatToString(|m|)] + rows;
    RowsAt(m, b.minY - 1, b.maxY - b.minY + 3, b.minX - 1, w, j - 1);
    assert lines[j] == row;
    RowColumn(m, y, b.minX - 1, w, k);
    assert b.minX - 1 + k == x;
    assert row[3 * k .. 3 * k + 3] == CellText(m, x, y);
  }

  /** The output of a non-empty world, read line by line: the population header,
      then one line per row of the padded bounding box, three characters per column. */
  lemma RenderedShape(m: World)
    requires m != {}
    ensures var b := BoundingBox(m);
            var lines := Split(Rendered(m));
            && |lines| == b.maxY - b.minY + 4
            && lines[0] == HeaderPrefix + NatToString(|m|)
            && forall j :: 1 <= j < |lines| ==> |lines[j]| == 3 * (b.maxX - b.minX + 3)
  {
    var b := BoundingBox(m);
    LinesSplit(m, b);
    assert Rendered(m) == Join(Lines(m, b));
    LinesShape(m, b);
  }

  /** In the output, the three characters for a cell (x, y) of the padded box are " O " exactly
      when the cell is live, and " . " otherwise. */
  lemma RenderedCell(m: World, x: int, y: int)
    requires m != {}
    requires var b := BoundingBox(m);
             b.minX - 1 <= x <= b.maxX + 1 && b.minY - 1 <= y <= b.maxY + 1
    ensures var b := BoundingBox(m);
            var lines := Split(Rendered(m));
            var j, k := y - b.minY + 2, x - b.minX + 1;
            && |lines| == b.maxY - b.minY + 4
            && |lines[j]| == 3 * (b.maxX - b.minX + 3)
            && lines[j][3 * k .. 3 * k + 3] == if (x, y) in m then " O " else " . "
  {
    var b := BoundingBox(m);
    assert Split(Rendered(m)) == Lines(m, b) by {
      LinesSplit(m, b);
      assert Rendered(m) == Join(Lines(m, b));
    }
    LinesCell(m, b, x, y);
  }

  /** Only the empty world is drawn as the empty-world message. */
  lemma EmptyMessageIffEmpty(m: World)
    ensures Rendered(m) == EmptyMessage <==> m == {}
  {
    if m != {} {
      RenderedShape(m);
      SplitLine(EmptyMessage);
    }
  }
}
