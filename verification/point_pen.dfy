/** `PointPen` and `points`: flatten a path into the point list handed to the
    variation model, dropping the closing point of a contour that duplicates
    its move point (as fontTools' SegmentToPointPen does). */
module PointPens {
  import opened Wrappers
  import opened FontTypes
  import opened Bez

  datatype PointPen = PointPen(lastMove: Option<Point>, points: seq<Point>)

  /** `PointPen::new`: no move seen, no points. */
  const NewPen := PointPen(None, [])

  function PenMoveTo(pen: PointPen, p: Point): PointPen
  {
    PointPen(Some(p), pen.points + [p])
  }

  function PenLineTo(pen: PointPen, p: Point): PointPen
  {
    pen.(points := pen.points + [p])
  }

  function PenQuadTo(pen: PointPen, c: Point, p: Point): PointPen
  {
    pen.(points := pen.points + [c, p])
  }

  function PenCurveTo(pen: PointPen, c1: Point, c2: Point, p: Point): PointPen
  {
    pen.(points := pen.points + [c1, c2, p])
  }

  /** `close`: pop the last point when there is more than one and it equals
      the last move point. */
  function PenClose(pen: PointPen): PointPen
  {
    if pen.lastMove.Some? && |pen.points| > 1
       && pen.points[|pen.points| - 1] == pen.lastMove.value
    then pen.(points := pen.points[..|pen.points| - 1])
    else pen
  }

  /** `write_to_pen` for one element: each kind to its pen call. */
  function Draw(pen: PointPen, el: PathEl): PointPen
  {
    match el
    case MoveTo(p) => PenMoveTo(pen, p)
    case LineTo(p) => PenLineTo(pen, p)
    case QuadTo(c, p) => PenQuadTo(pen, c, p)
    case CurveTo(c1, c2, p) => PenCurveTo(pen, c1, c2, p)
    case ClosePath => PenClose(pen)
  }

  function DrawAll(pen: PointPen, path: Path): PointPen
    decreases |path|
  {
    if path == [] then pen else DrawAll(Draw(pen, path[0]), path[1..])
  }

  /** glyphs.rs `points`. */
  function Points(path: Path): seq<Point>
  {
    DrawAll(NewPen, path).points
  }

  /** The points an element carries: its control points, then its end point. */
  function ElPoints(el: PathEl): seq<Point>
  {
    match el
    case MoveTo(p) => [p]
    case LineTo(p) => [p]
    case QuadTo(c, p) => [c, p]
    case CurveTo(c1, c2, p) => [c1, c2, p]
    case ClosePath => []
  }

  function FlatPoints(path: Path): seq<Point>
  {
    if path == [] then [] else ElPoints(path[0]) + FlatPoints(path[1..])
  }

  /** Number of points a path carries: 1 per move or line, 2 per quadratic,
      3 per cubic, none per close. */
  function Weight(path: Path): nat
  {
    if path == [] then 0 else |ElPoints(path[0])| + Weight(path[1..])
  }

  function CloseCount(path: Path): nat
  {
    if path == [] then 0 else (if path[0].ClosePath? then 1 else 0) + CloseCount(path[1..])
  }

  predicate NoClose(path: Path)
  {
    forall i :: 0 <= i < |path| ==> !path[i].ClosePath?
  }

  predicate NoMove(path: Path)
  {
    forall i :: 0 <= i < |path| ==> !path[i].MoveTo?
  }

  /** Every pen call but `close` appends exactly the element's points; `close`
      drops the last point exactly when there is more than one and it repeats
      the last move point, and otherwise leaves the points alone. */
  lemma DrawAppends(pen: PointPen, el: PathEl)
    ensures !el.ClosePath? ==> Draw(pen, el).points == pen.points + ElPoints(el)
    ensures el.MoveTo? ==> Draw(pen, el).lastMove == Some(el.p)
    ensures !el.MoveTo? ==> Draw(pen, el).lastMove == pen.lastMove
    ensures el.ClosePath? && |pen.points| > 1 && Some(pen.points[|pen.points| - 1]) == pen.lastMove ==>
      Draw(pen, el).points == pen.points[..|pen.points| - 1]
    ensures el.ClosePath? && !(|pen.points| > 1 && Some(pen.points[|pen.points| - 1]) == pen.lastMove) ==>
      Draw(pen, el).points == pen.points
  {
  }

  lemma {:induction false} DrawAllAppend(pen: PointPen, a: Path, b: Path)
    ensures DrawAll(pen, a + b) == DrawAll(DrawAll(pen, a), b)
    decreases |a|
  {
    if a != [] {
      assert (a + b)[1..] == a[1..] + b;
      DrawAllAppend(Draw(pen, a[0]), a[1..], b);
    } else {
      assert a + b == b;
    }
  }

  /** Without a close, drawing a path appends exactly its points in order. */
  lemma {:induction false} DrawAllWithoutClose(pen: PointPen, path: Path)
    requires NoClose(path)
    ensures DrawAll(pen, path).points == pen.points + FlatPoints(path)
    decreases |path|
  {
    if path != [] {
      var next := Draw(pen, path[0]);
      assert !path[0].ClosePath?;
      DrawAppends(pen, path[0]);
      assert NoClose(path[1..]) by {
        forall i | 0 <= i < |path[1..]|
          ensures !path[1..][i].ClosePath?
        {
          assert path[1..][i] == path[i + 1];
        }
      }
      DrawAllWithoutClose(next, path[1..]);
      calc {
        DrawAll(pen, path).points;
        DrawAll(next, path[1..]).points;
        next.points + FlatPoints(path[1..]);
        (pen.points + ElPoints(path[0])) + FlatPoints(path[1..]);
        pen.points + (ElPoints(path[0]) + FlatPoints(path[1..]));
        pen.points + FlatPoints(path);
      }
    }
  }

  /** Drawing a path without moves keeps the recorded move point. */
  lemma {:induction false} DrawAllKeepsMove(pen: PointPen, path: Path)
    requires NoMove(path)
    ensures DrawAll(pen, path).lastMove == pen.lastMove
    decreases |path|
  {
    if path != [] {
      DrawAppends(pen, path[0]);
      DrawAllKeepsMove(Draw(pen, path[0]), path[1..]);
    }
  }

  lemma {:induction false} FlatPointsLength(path: Path)
    ensures |FlatPoints(path)| == Weight(path)
  {
    if path != [] {
      FlatPointsLength(path[1..]);
    }
  }

  /** An open path (no close) yields exactly its points, `Weight` of them. */
  lemma PointsOfOpenPath(path: Path)
    requires NoClose(path)
    ensures Points(path) == FlatPoints(path)
    ensures |Points(path)| == Weight(path)
  {
    DrawAllWithoutClose(NewPen, path);
    FlatPointsLength(path);
  }

  lemma {:induction false} DrawAllCountBounds(pen: PointPen, path: Path)
    ensures |pen.points| + Weight(path) - CloseCount(path) <= |DrawAll(pen, path).points|
    ensures |DrawAll(pen, path).points| <= |pen.points| + Weight(path)
    decreases |path|
  {
    if path != [] {
      DrawAppends(pen, path[0]);
      DrawAllCountBounds(Draw(pen, path[0]), path[1..]);
    }
  }

  /** Each close removes at most one point and nothing else does. */
  lemma PointCountBounds(path: Path)
    ensures Weight(path) - CloseCount(path) <= |Points(path)| <= Weight(path)
  {
    DrawAllCountBounds(NewPen, path);
  }

  /** A single closed contour `MoveTo(p) body ClosePath`: its points are the
      move point and the body's points, with the last one dropped exactly when
      the body ends back on `p`. */
  lemma ClosedContourPoints(p: Point, body: Path)
    requires body != [] && NoClose(body) && NoMove(body)
    ensures var pts := [p] + FlatPoints(body);
            |pts| > 1
            && Points([MoveTo(p)] + body + [ClosePath])
               == if pts[|pts| - 1] == p then pts[..|pts| - 1] else pts
  {
    var pts := [p] + FlatPoints(body);
    var open := [MoveTo(p)] + body;
    assert NoClose(open) by {
      forall i | 0 <= i < |open| ensures !open[i].ClosePath? {
        if i > 0 { assert open[i] == body[i - 1]; }
      }
    }
    DrawAllWithoutClose(NewPen, open);
    assert FlatPoints(open) == pts by {
      assert open[1..] == body;
    }
    assert |FlatPoints(body)| > 0 by {
      FlatPointsLength(body);
      assert |ElPoints(body[0])| > 0 by { assert !body[0].ClosePath?; }
    }
    DrawAllKeepsMove(PenMoveTo(NewPen, p), body);
    assert DrawAll(NewPen, open) == DrawAll(PenMoveTo(NewPen, p), body) by {
      assert open[1..] == body;
    }
    DrawAllAppend(NewPen, open, [ClosePath]);
  }

  /** The triangle of the source's tests, drawn with and without an explicit
      closing line: 3 points either way. */
  lemma TrianglePoints()
    ensures Points([MoveTo(Point(0, 0)), LineTo(Point(1, 0)), LineTo(Point(1, 1)), ClosePath])
            == [Point(0, 0), Point(1, 0), Point(1, 1)]
    ensures Points([MoveTo(Point(0, 0)), LineTo(Point(1, 0)), LineTo(Point(1, 1)), LineTo(Point(0, 0)), ClosePath])
            == [Point(0, 0), Point(1, 0), Point(1, 1)]
  {
  }

  /** The quadratic ellipse of the source's tests: four quadratics closing
      back on the start give 8 points, the duplicate start dropped. */
  lemma EllipsePoints()
    ensures Points([MoveTo(Point(0, 3)),
                    QuadTo(Point(0, 5), Point(2, 5)), QuadTo(Point(4, 5), Point(4, 3)),
                    QuadTo(Point(4, 1), Point(2, 1)), QuadTo(Point(0, 1), Point(0, 3)),
                    ClosePath])
            == [Point(0, 3), Point(0, 5), Point(2, 5), Point(4, 5),
                Point(4, 3), Point(4, 1), Point(2, 1), Point(0, 1)]
  {
  }
}
