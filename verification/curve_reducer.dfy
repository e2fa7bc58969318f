/** The curve reducer (`cubics_to_quadratics`): rewrites every cubic segment of
    a contour glyph into quadratic segments, one segment position at a time
    and jointly across all master locations, so that every master decomposes
    a curve into the same number of quadratics. */
module CurveReducer {
  import opened Wrappers
  import opened FontTypes
  import opened Errors
  import opened Bez
  import opened CheckedGlyphs

  datatype Cubic = Cubic(p0: Point, p1: Point, p2: Point, p3: Point)

  /** One quadratic of a spline, drawn as `quad_to(ctrl, end)`; its start is
      the end of the previous one. */
  datatype Quad = Quad(ctrl: Point, end: Point)

  type Spline = seq<Quad>

  /** kurbo's `cubics_to_quadratic_splines(cubics, 1.0)`: reduces one cubic per
      master jointly, or fails. It is floating-point numerics outside this
      model, so the reducer takes it as a parameter. */
  type Reducer = seq<Cubic> -> Option<seq<Spline>>

  /** kurbo's promise for a joint reduction: every master's spline has the
      same number of quadratics. */
  ghost predicate UniformSplines(reduce: Reducer)
  {
    forall cubics :: reduce(cubics).Some? ==>
      forall a, b :: 0 <= a < |reduce(cubics).value| && 0 <= b < |reduce(cubics).value| ==>
        |reduce(cubics).value[a]| == |reduce(cubics).value[b]|
  }

  function PathsOf(lps: seq<LocPath>): (ps: seq<Path>)
    ensures |ps| == |lps| && forall k :: 0 <= k < |lps| ==> ps[k] == lps[k].path
  {
    seq(|lps|, k requires 0 <= k < |lps| => lps[k].path)
  }

  /** All masters' paths have one and the same kind string. */
  ghost predicate Lockstep(ps: seq<Path>)
  {
    forall k :: 0 <= k < |ps| ==> Kinds(ps[k]) == Kinds(ps[0])
  }

  lemma LockstepColumn(ps: seq<Path>, i: nat)
    requires Lockstep(ps) && |ps| > 0 && i < |ps[0]|
    ensures forall k :: 0 <= k < |ps| ==> |ps[k]| == |ps[0]| && SameKind(ps[k][i], ps[0][i])
  {
    forall k | 0 <= k < |ps|
      ensures |ps[k]| == |ps[0]| && SameKind(ps[k][i], ps[0][i])
    {
      assert |Kinds(ps[k])| == |Kinds(ps[0])|;
      assert Kinds(ps[k])[i] == Kinds(ps[0])[i];
      ElTypeIdentifiesKind(ps[k][i], ps[0][i]);
    }
  }

  /** The element at position `i` of every master. */
  function Column(ps: seq<Path>, i: nat): (els: seq<PathEl>)
    requires forall k :: 0 <= k < |ps| ==> i < |ps[k]|
    ensures |els| == |ps| && forall k :: 0 <= k < |ps| ==> els[k] == ps[k][i]
  {
    seq(|ps|, k requires 0 <= k < |ps| => ps[k][i])
  }

  /** Where an element leaves the pen; `ClosePath` returns to the subpath start. */
  function EndPoint(el: PathEl, start: Point): Point
  {
    if el.ClosePath? then start else el.p
  }

  /** A spline drawn as `quad_to` commands. */
  function QuadEls(s: Spline): (r: Path)
    ensures |r| == |s| && forall j :: 0 <= j < |s| ==> r[j].QuadTo?
  {
    seq(|s|, j requires 0 <= j < |s| => QuadTo(s[j].ctrl, s[j].end))
  }

  lemma {:induction false} NoCurveAppend(a: Path, b: Path)
    requires !HasCurve(a) && !HasCurve(b)
    ensures !HasCurve(a + b)
  {
    forall j | 0 <= j < |a + b| ensures !(a + b)[j].CurveTo? {
      if j < |a| { assert (a + b)[j] == a[j]; } else { assert (a + b)[j] == b[j - |a|]; }
    }
  }

  /** The cubics of a curve position: master `k`'s cubic starts at `from[k]`
      and takes its controls and end point from the master's `CurveTo`. */
  function ColumnCubics(ps: seq<Path>, i: nat, from: seq<Point>): (cs: seq<Cubic>)
    requires Lockstep(ps) && |ps| > 0 && i < |ps[0]| && ps[0][i].CurveTo? && |from| == |ps|
    ensures |cs| == |ps|
    ensures forall k :: 0 <= k < |ps| ==>
      i < |ps[k]| && ps[k][i].CurveTo? && cs[k] == Cubic(from[k], ps[k][i].c1, ps[k][i].c2, ps[k][i].p)
  {
    LockstepColumn(ps, i);
    seq(|ps|, k requires 0 <= k < |ps| => Cubic(from[k], ps[k][i].c1, ps[k][i].c2, ps[k][i].p))
  }

  /** Processes segment position `i` of every master: a non-curve element is
      copied to each master's output; at a curve, one cubic per master is built
      from `from` (each master's pen position) and the joint reduction's
      quadratics are appended instead. The step fails exactly when the
      reduction fails or returns a spline count other than the master count. */
  function Advance(name: GlyphName, ps: seq<Path>, i: nat, from: seq<Point>, outs: seq<Path>, reduce: Reducer)
    : (r: Result<seq<Path>, Panic>)
    requires Lockstep(ps) && |ps| > 0 && i < |ps[0]|
    requires |from| == |ps| && |outs| == |ps|
    ensures r.Ok? ==> |r.value| == |ps|
    ensures r.Ok? ==> forall k :: 0 <= k < |ps| ==> |outs[k]| <= |r.value[k]| && r.value[k][..|outs[k]|] == outs[k]
    ensures r.Ok? ==> forall k :: 0 <= k < |ps| && !HasCurve(outs[k]) ==> !HasCurve(r.value[k])
    ensures r.Err? ==> ps[0][i].CurveTo? && (r.error == QuadraticConversionFailed(name) || r.error.SplineCountMismatch?)
    ensures !ps[0][i].CurveTo? ==>
      r.Ok? && |r.value| == |ps| && forall k :: 0 <= k < |ps| ==> i < |ps[k]| && r.value[k] == outs[k] + [ps[k][i]]
    ensures ps[0][i].CurveTo? ==>
      var splines := reduce(ColumnCubics(ps, i, from));
      && (r == Err(QuadraticConversionFailed(name)) <==> splines.None?)
      && (r.Err? && r.error.SplineCountMismatch? <==> splines.Some? && |splines.value| != |ps|)
      && (r.Ok? <==> splines.Some? && |splines.value| == |ps|)
      && (r.Ok? ==> |r.value| == |ps| && |splines.value| == |ps| &&
                    forall k :: 0 <= k < |ps| ==> r.value[k] == outs[k] + QuadEls(splines.value[k]))
  {
    LockstepColumn(ps, i);
    var els := Column(ps, i);
    if els[0].CurveTo? then
      var cubics := ColumnCubics(ps, i, from);
      match reduce(cubics)
      case None => Err(QuadraticConversionFailed(name))
      case Some(splines) =>
        if |splines| != |ps| then Err(SplineCountMismatch(name, |splines|, |ps|))
        else
          var r := seq(|ps|, k requires 0 <= k < |ps| => outs[k] + QuadEls(splines[k]));
          assert forall k :: 0 <= k < |ps| && !HasCurve(outs[k]) ==> !HasCurve(r[k]) by {
            forall k | 0 <= k < |ps| && !HasCurve(outs[k]) ensures !HasCurve(r[k]) {
              NoCurveAppend(outs[k], QuadEls(splines[k]));
            }
          }
          assert forall k :: 0 <= k < |ps| ==> r[k][..|outs[k]|] == outs[k];
          Ok(r)
    else
      var r := seq(|ps|, k requires 0 <= k < |ps| => outs[k] + [els[k]]);
      assert forall k :: 0 <= k < |ps| && !HasCurve(outs[k]) ==> !HasCurve(r[k]) by {
        forall k | 0 <= k < |ps| && !HasCurve(outs[k]) ensures !HasCurve(r[k]) {
          NoCurveAppend(outs[k], [els[k]]);
        }
      }
      assert forall k :: 0 <= k < |ps| ==> r[k][..|outs[k]|] == outs[k];
      Ok(r)
  }

  /** The lock-step walk from position `i` on. `starts` holds each master's
      subpath start and `prevs` each master's previous end point, updated after
      every position as the source does. */
  function Walk(name: GlyphName, ps: seq<Path>, i: nat, starts: seq<Point>, prevs: seq<Point>,
                outs: seq<Path>, reduce: Reducer): (r: Result<seq<Path>, Panic>)
    requires Lockstep(ps) && |ps| > 0 && i <= |ps[0]|
    requires |starts| == |ps| && |prevs| == |ps| && |outs| == |ps|
    ensures r.Ok? ==> |r.value| == |ps|
    ensures r.Ok? ==> forall k :: 0 <= k < |ps| && !HasCurve(outs[k]) ==> !HasCurve(r.value[k])
    ensures r.Err? ==> r.error == QuadraticConversionFailed(name) || r.error.SplineCountMismatch?
    decreases |ps[0]| - i
  {
    if i == |ps[0]| then Ok(outs)
    else
      LockstepColumn(ps, i);
      var outs' :- Advance(name, ps, i, prevs, outs, reduce);
      var els := Column(ps, i);
      var prevs' := seq(|ps|, k requires 0 <= k < |ps| => EndPoint(els[k], starts[k]));
      var starts' := if els[0].MoveTo? then prevs' else starts;
      Walk(name, ps, i + 1, starts', prevs', outs', reduce)
  }

  /** `cubics_to_quadratics`. A composite is returned unchanged; a contour
      glyph whose masters are in lock-step has every cubic replaced by
      quadratics, every location kept (empty paths included). */
  function ToQuadratics(g: CheckedGlyph, reduce: Reducer): (r: Result<CheckedGlyph, Panic>)
    requires g.Contour? ==> Lockstep(PathsOf(g.paths))
    ensures g.Composite? ==> r == Ok(g)
    ensures g.Contour? && r.Ok? ==>
      r.value.Contour? && r.value.name == g.name && |r.value.paths| == |g.paths|
      && forall k :: 0 <= k < |g.paths| ==> r.value.paths[k].loc == g.paths[k].loc && !HasCurve(r.value.paths[k].path)
    ensures g.Contour? ==>
      (r == Err(IllegalPathStart(g.name)) <==>
       exists k :: 0 <= k < |g.paths| && g.paths[k].path != [] && !g.paths[k].path[0].MoveTo?)
    ensures r.Err? ==>
      r.error in {IllegalPathStart(g.name), QuadraticConversionFailed(g.name)} || r.error.SplineCountMismatch?
  {
    match g
    case Composite(_, _) => Ok(g)
    case Contour(name, lps) =>
      var ps := PathsOf(lps);
      if ps == [] || ps[0] == [] then
        assert forall k :: 0 <= k < |ps| ==> ps[k] == [] by {
          forall k | 0 <= k < |ps| ensures ps[k] == [] { assert |Kinds(ps[k])| == |Kinds(ps[0])|; }
        }
        Ok(Contour(name, seq(|lps|, k requires 0 <= k < |lps| => LocPath(lps[k].loc, []))))
      else
        LockstepColumn(ps, 0);
        if !ps[0][0].MoveTo? then Err(IllegalPathStart(name))
        else
          var firsts := seq(|ps|, k requires 0 <= k < |ps| => ps[k][0].p);
          var moves := seq(|ps|, k requires 0 <= k < |ps| => [ps[k][0]]);
          var outs :- Walk(name, ps, 1, firsts, firsts, moves, reduce);
          Ok(Contour(name, seq(|lps|, k requires 0 <= k < |lps| => LocPath(lps[k].loc, outs[k]))))
  }

  // ---------------------------------------------------------------------
  // Paths without curves pass through unchanged

  lemma {:induction false} WalkCopiesCurveFree(name: GlyphName, ps: seq<Path>, i: nat, starts: seq<Point>,
                                               prevs: seq<Point>, outs: seq<Path>, reduce: Reducer)
    requires Lockstep(ps) && |ps| > 0 && i <= |ps[0]|
    requires |starts| == |ps| && |prevs| == |ps| && |outs| == |ps|
    requires forall k :: 0 <= k < |ps| ==> !HasCurve(ps[k]) && i <= |ps[k]| && outs[k] == ps[k][..i]
    ensures Walk(name, ps, i, starts, prevs, outs, reduce) == Ok(ps)
    decreases |ps[0]| - i
  {
    if i == |ps[0]| {
      LockstepLengths(ps);
      assert forall k :: 0 <= k < |ps| ==> outs[k] == ps[k];
      assert outs == ps;
    } else {
      LockstepColumn(ps, i);
      var els := Column(ps, i);
      assert !els[0].CurveTo?;
      var outs' := seq(|ps|, k requires 0 <= k < |ps| => ps[k][..i + 1]);
      AdvanceCopies(name, ps, i, prevs, outs, reduce, outs');
      var prevs' := seq(|ps|, k requires 0 <= k < |ps| => EndPoint(els[k], starts[k]));
      var starts' := if els[0].MoveTo? then prevs' else starts;
      assert Walk(name, ps, i, starts, prevs, outs, reduce) == Walk(name, ps, i + 1, starts', prevs', outs', reduce);
      WalkCopiesCurveFree(name, ps, i + 1, starts', prevs', outs', reduce);
    }
  }

  /** At a column without curves, `Advance` extends each output by the
      master's own element. */
  lemma AdvanceCopies(name: GlyphName, ps: seq<Path>, i: nat, from: seq<Point>, outs: seq<Path>, reduce: Reducer,
                      next: seq<Path>)
    requires Lockstep(ps) && |ps| > 0 && i < |ps[0]|
    requires |from| == |ps| && |outs| == |ps| && !ps[0][i].CurveTo?
    requires forall k :: 0 <= k < |ps| ==> i < |ps[k]| && outs[k] == ps[k][..i]
    requires |next| == |ps| && forall k :: 0 <= k < |ps| ==> next[k] == ps[k][..i + 1]
    ensures Advance(name, ps, i, from, outs, reduce) == Ok(next)
  {
    LockstepColumn(ps, i);
    var els := Column(ps, i);
    assert !els[0].CurveTo?;
    var r := seq(|ps|, k requires 0 <= k < |ps| => outs[k] + [els[k]]);
    assert Advance(name, ps, i, from, outs, reduce) == Ok(r);
    forall k | 0 <= k < |ps|
      ensures r[k] == next[k]
    {
      assert ps[k][..i + 1] == ps[k][..i] + [ps[k][i]];
    }
    assert r == next;
  }

  lemma LockstepLengths(ps: seq<Path>)
    requires Lockstep(ps)
    ensures forall k :: 0 <= k < |ps| ==> |ps[k]| == |ps[0]|
  {
    forall k | 0 <= k < |ps| ensures |ps[k]| == |ps[0]| {
      assert |Kinds(ps[k])| == |Kinds(ps[0])|;
    }
  }

  /** A contour glyph without cubics comes back unchanged, provided every
      non-empty path starts with a `MoveTo` (otherwise the reducer panics). */
  lemma NoCurvesUnchanged(g: CheckedGlyph, reduce: Reducer)
    requires g.Contour? && Lockstep(PathsOf(g.paths))
    requires forall k :: 0 <= k < |g.paths| ==> !HasCurve(g.paths[k].path)
    requires forall k :: 0 <= k < |g.paths| ==> g.paths[k].path == [] || g.paths[k].path[0].MoveTo?
    ensures ToQuadratics(g, reduce) == Ok(g)
  {
    var ps := PathsOf(g.paths);
    LockstepLengths(ps);
    if ps == [] || ps[0] == [] {
      var emptied := seq(|g.paths|, k requires 0 <= k < |g.paths| => LocPath(g.paths[k].loc, []));
      assert forall k :: 0 <= k < |ps| ==> g.paths[k] == emptied[k];
      assert emptied == g.paths;
    } else {
      var firsts := seq(|ps|, k requires 0 <= k < |ps| => ps[k][0].p);
      var moves := seq(|ps|, k requires 0 <= k < |ps| => [ps[k][0]]);
      assert forall k :: 0 <= k < |ps| ==> moves[k] == ps[k][..1];
      WalkCopiesCurveFree(g.name, ps, 1, firsts, firsts, moves, reduce);
      var rebuilt := seq(|g.paths|, k requires 0 <= k < |g.paths| => LocPath(g.paths[k].loc, ps[k]));
      assert forall k :: 0 <= k < |ps| ==> g.paths[k] == rebuilt[k];
      assert rebuilt == g.paths;
    }
  }

  // ---------------------------------------------------------------------
  // The tracked end points are the pen positions

  /** Every master's pen position before segment position `i`. */
  function PenPositions(ps: seq<Path>, i: nat): (r: seq<Point>)
    requires forall k :: 0 <= k < |ps| ==> i <= |ps[k]|
    ensures |r| == |ps|
  {
    seq(|ps|, k requires 0 <= k < |ps| => CurrentPoint(ps[k][..i]))
  }

  function SubpathStarts(ps: seq<Path>, i: nat): (r: seq<Point>)
    requires forall k :: 0 <= k < |ps| ==> i <= |ps[k]|
    ensures |r| == |ps|
  {
    seq(|ps|, k requires 0 <= k < |ps| => SubpathStart(ps[k][..i]))
  }

  /** The walk restated without tracked state: each cubic starts at the
      master's pen position as defined by `CurrentPoint`. */
  function ReferenceWalk(name: GlyphName, ps: seq<Path>, i: nat, outs: seq<Path>, reduce: Reducer)
    : (r: Result<seq<Path>, Panic>)
    requires Lockstep(ps) && |ps| > 0 && i <= |ps[0]| && |outs| == |ps|
    ensures r.Ok? ==> |r.value| == |ps|
    decreases |ps[0]| - i
  {
    LockstepLengths(ps);
    if i == |ps[0]| then Ok(outs)
    else
      var outs' :- Advance(name, ps, i, PenPositions(ps, i), outs, reduce);
      ReferenceWalk(name, ps, i + 1, outs', reduce)
  }

  /** The reducer restated with `ReferenceWalk`. */
  function ReferenceQuadratics(g: CheckedGlyph, reduce: Reducer): Result<CheckedGlyph, Panic>
    requires g.Contour? ==> Lockstep(PathsOf(g.paths))
  {
    match g
    case Composite(_, _) => Ok(g)
    case Contour(name, lps) =>
      var ps := PathsOf(lps);
      LockstepLengths(ps);
      if ps == [] || ps[0] == [] then
        Ok(Contour(name, seq(|lps|, k requires 0 <= k < |lps| => LocPath(lps[k].loc, []))))
      else if !ps[0][0].MoveTo? then Err(IllegalPathStart(name))
      else
        var moves := seq(|ps|, k requires 0 <= k < |ps| => [ps[k][0]]);
        var outs :- ReferenceWalk(name, ps, 1, moves, reduce);
        Ok(Contour(name, seq(|lps|, k requires 0 <= k < |lps| => LocPath(lps[k].loc, outs[k]))))
  }

  /** One step of the tracked state: the end point of element `i` is the pen
      position after it, and a `MoveTo` column is the new subpath start. */
  lemma {:induction false} TrackStep(ps: seq<Path>, i: nat, starts: seq<Point>, prevs: seq<Point>)
    requires Lockstep(ps) && |ps| > 0 && i < |ps[0]|
    requires |starts| == |ps| && |prevs| == |ps|
    requires forall k :: 0 <= k < |ps| ==> |ps[k]| == |ps[0]|
    requires starts == SubpathStarts(ps, i)
    ensures var els := Column(ps, i);
            var prevs' := seq(|ps|, k requires 0 <= k < |ps| => EndPoint(els[k], starts[k]));
            prevs' == PenPositions(ps, i + 1)
            && (if els[0].MoveTo? then prevs' else starts) == SubpathStarts(ps, i + 1)
  {
    LockstepColumn(ps, i);
    var els := Column(ps, i);
    forall k | 0 <= k < |ps|
      ensures EndPoint(els[k], starts[k]) == CurrentPoint(ps[k][..i + 1])
      ensures (if els[0].MoveTo? then EndPoint(els[k], starts[k]) else starts[k]) == SubpathStart(ps[k][..i + 1])
    {
      var pre := ps[k][..i + 1];
      assert pre[..|pre| - 1] == ps[k][..i];
      assert pre[|pre| - 1] == els[k];
    }
  }

  lemma {:induction false} WalkTracksPenPositions(name: GlyphName, ps: seq<Path>, i: nat, starts: seq<Point>,
                                                  prevs: seq<Point>, outs: seq<Path>, reduce: Reducer)
    requires Lockstep(ps) && |ps| > 0 && i <= |ps[0]|
    requires |starts| == |ps| && |prevs| == |ps| && |outs| == |ps|
    requires forall k :: 0 <= k < |ps| ==> |ps[k]| == |ps[0]|
    requires starts == SubpathStarts(ps, i) && prevs == PenPositions(ps, i)
    ensures Walk(name, ps, i, starts, prevs, outs, reduce) == ReferenceWalk(name, ps, i, outs, reduce)
    decreases |ps[0]| - i
  {
    if i < |ps[0]| {
      var r := Advance(name, ps, i, prevs, outs, reduce);
      if r.Ok? {
        var els := Column(ps, i);
        var prevs' := seq(|ps|, k requires 0 <= k < |ps| => EndPoint(els[k], starts[k]));
        var starts' := if els[0].MoveTo? then prevs' else starts;
        TrackStep(ps, i, starts, prevs);
        WalkTracksPenPositions(name, ps, i + 1, starts', prevs', r.value, reduce);
      }
    }
  }

  /** The reducer's tracked end points are the pen positions: at every curve
      position each master's cubic starts at `CurrentPoint` of the path drawn
      so far, where `ClosePath` returns to the subpath start and `MoveTo`
      begins a new subpath. */
  lemma ReducerStartsCubicsAtPenPosition(g: CheckedGlyph, reduce: Reducer)
    requires g.Contour? ==> Lockstep(PathsOf(g.paths))
    ensures ToQuadratics(g, reduce) == ReferenceQuadratics(g, reduce)
  {
    if g.Contour? {
      var ps := PathsOf(g.paths);
      LockstepLengths(ps);
      if ps != [] && ps[0] != [] && ps[0][0].MoveTo? {
        LockstepColumn(ps, 0);
        var firsts := seq(|ps|, k requires 0 <= k < |ps| => ps[k][0].p);
        var moves := seq(|ps|, k requires 0 <= k < |ps| => [ps[k][0]]);
        forall k | 0 <= k < |ps|
          ensures firsts[k] == SubpathStart(ps[k][..1]) && firsts[k] == CurrentPoint(ps[k][..1])
        {
          assert ps[k][..1][..0] == [];
        }
        WalkTracksPenPositions(g.name, ps, 1, firsts, firsts, moves, reduce);
      }
    }
  }

  // ---------------------------------------------------------------------
  // The output, position by position

  /** The joint reduction at curve position `j`, every master's cubic starting
      at its pen position. */
  function SplinesAt(ps: seq<Path>, j: nat, reduce: Reducer): Option<seq<Spline>>
    requires Lockstep(ps) && |ps| > 0 && j < |ps[0]| && ps[0][j].CurveTo?
  {
    LockstepLengths(ps);
    reduce(ColumnCubics(ps, j, PenPositions(ps, j)))
  }

  /** Position `j` converts: it is not a curve, or its joint reduction gives
      one spline per master. */
  predicate ColumnReduces(ps: seq<Path>, j: nat, reduce: Reducer)
    requires Lockstep(ps) && |ps| > 0 && j < |ps[0]|
  {
    !ps[0][j].CurveTo? || (SplinesAt(ps, j, reduce).Some? && |SplinesAt(ps, j, reduce).value| == |ps|)
  }

  /** What position `j` contributes to master `k`: the element itself, or
      master `k`'s spline of the joint reduction as `quad_to` commands. */
  function Piece(ps: seq<Path>, j: nat, k: nat, reduce: Reducer): Path
    requires Lockstep(ps) && |ps| > 0 && j < |ps[0]| && k < |ps|
    requires ColumnReduces(ps, j, reduce)
  {
    LockstepLengths(ps);
    if ps[0][j].CurveTo? then QuadEls(SplinesAt(ps, j, reduce).value[k]) else [ps[k][j]]
  }

  /** Master `k`'s converted path through position `n`: the pieces of
      positions `0 .. n - 1`, concatenated. */
  function Converted(ps: seq<Path>, k: nat, n: nat, reduce: Reducer): Path
    requires Lockstep(ps) && |ps| > 0 && n <= |ps[0]| && k < |ps|
    requires forall j :: 0 <= j < n ==> ColumnReduces(ps, j, reduce)
  {
    if n == 0 then [] else Converted(ps, k, n - 1, reduce) + Piece(ps, n - 1, k, reduce)
  }

  /** One position of the reference walk: it succeeds iff the position
      converts, and then extends each converted prefix by that position's
      piece. */
  lemma AdvanceConverts(name: GlyphName, ps: seq<Path>, i: nat, outs: seq<Path>, reduce: Reducer)
    requires Lockstep(ps) && |ps| > 0 && i < |ps[0]| && |outs| == |ps|
    requires forall k :: 0 <= k < |ps| ==> |ps[k]| == |ps[0]|
    requires forall j :: 0 <= j < i ==> ColumnReduces(ps, j, reduce)
    requires forall k :: 0 <= k < |ps| ==> outs[k] == Converted(ps, k, i, reduce)
    ensures Advance(name, ps, i, PenPositions(ps, i), outs, reduce).Ok? <==> ColumnReduces(ps, i, reduce)
    ensures ColumnReduces(ps, i, reduce) ==>
      forall k :: 0 <= k < |ps| ==>
        Advance(name, ps, i, PenPositions(ps, i), outs, reduce).value[k] == Converted(ps, k, i + 1, reduce)
  {
    var r := Advance(name, ps, i, PenPositions(ps, i), outs, reduce);
    if ColumnReduces(ps, i, reduce) {
      forall k | 0 <= k < |ps|
        ensures r.value[k] == Converted(ps, k, i + 1, reduce)
      {
        assert r.value[k] == outs[k] + Piece(ps, i, k, reduce);
      }
    }
  }

  lemma {:induction false} ReferenceWalkConverts(name: GlyphName, ps: seq<Path>, i: nat, outs: seq<Path>,
                                                 reduce: Reducer)
    requires Lockstep(ps) && |ps| > 0 && i <= |ps[0]| && |outs| == |ps|
    requires forall j :: 0 <= j < i ==> ColumnReduces(ps, j, reduce)
    requires forall k :: 0 <= k < |ps| ==> outs[k] == Converted(ps, k, i, reduce)
    ensures ReferenceWalk(name, ps, i, outs, reduce).Ok? <==>
            forall j :: 0 <= j < |ps[0]| ==> ColumnReduces(ps, j, reduce)
    ensures ReferenceWalk(name, ps, i, outs, reduce).Ok? ==>
            (forall j :: 0 <= j < |ps[0]| ==> ColumnReduces(ps, j, reduce)) &&
            forall k :: 0 <= k < |ps| ==>
              ReferenceWalk(name, ps, i, outs, reduce).value[k] == Converted(ps, k, |ps[0]|, reduce)
    decreases |ps[0]| - i
  {
    LockstepLengths(ps);
    if i < |ps[0]| {
      AdvanceConverts(name, ps, i, outs, reduce);
      var r := Advance(name, ps, i, PenPositions(ps, i), outs, reduce);
      if r.Ok? {
        ReferenceWalkConverts(name, ps, i + 1, r.value, reduce);
      }
    }
  }

  /** `cubics_to_quadratics` as a flat map: a contour glyph whose paths start
      with a `MoveTo` converts exactly when every curve position's joint
      reduction gives one spline per master, and then each master's path is
      its elements in order, each non-curve copied and each curve replaced by
      that master's quadratics, the cubic starting at its pen position. */
  lemma ReducedPathsAreConvertedPaths(g: CheckedGlyph, reduce: Reducer)
    requires g.Contour? && Lockstep(PathsOf(g.paths)) && |g.paths| > 0
    requires forall k :: 0 <= k < |g.paths| ==> g.paths[k].path == [] || g.paths[k].path[0].MoveTo?
    ensures var ps := PathsOf(g.paths);
            && (ToQuadratics(g, reduce).Ok? <==> forall j :: 0 <= j < |ps[0]| ==> ColumnReduces(ps, j, reduce))
            && (ToQuadratics(g, reduce).Ok? ==>
                  (forall j :: 0 <= j < |ps[0]| ==> ColumnReduces(ps, j, reduce)) &&
                  forall k :: 0 <= k < |ps| ==>
                    ToQuadratics(g, reduce).value.paths[k].path == Converted(ps, k, |ps[0]|, reduce))
  {
    ReducerStartsCubicsAtPenPosition(g, reduce);
    var ps := PathsOf(g.paths);
    LockstepLengths(ps);
    if ps[0] != [] {
      LockstepColumn(ps, 0);
      var moves := seq(|ps|, k requires 0 <= k < |ps| => [ps[k][0]]);
      assert ColumnReduces(ps, 0, reduce);
      forall k | 0 <= k < |ps|
        ensures moves[k] == Converted(ps, k, 1, reduce)
      {
      }
      ReferenceWalkConverts(g.name, ps, 1, moves, reduce);
    }
  }

  // ---------------------------------------------------------------------
  // Masters stay in lock-step

  lemma QuadKindsAgree(a: Spline, b: Spline)
    requires |a| == |b|
    ensures Kinds(QuadEls(a)) == Kinds(QuadEls(b))
  {
  }

  lemma {:induction false} AdvanceKeepsLockstep(name: GlyphName, ps: seq<Path>, i: nat, from: seq<Point>,
                                                outs: seq<Path>, reduce: Reducer)
    requires Lockstep(ps) && |ps| > 0 && i < |ps[0]|
    requires |from| == |ps| && |outs| == |ps| && Lockstep(outs)
    requires UniformSplines(reduce)
    requires Advance(name, ps, i, from, outs, reduce).Ok?
    ensures Lockstep(Advance(name, ps, i, from, outs, reduce).value)
  {
    LockstepColumn(ps, i);
    var els := Column(ps, i);
    var r := Advance(name, ps, i, from, outs, reduce).value;
    if els[0].CurveTo? {
      var splines := reduce(ColumnCubics(ps, i, from)).value;
      forall k | 0 <= k < |ps| ensures Kinds(r[k]) == Kinds(r[0]) {
        KindsAppend(outs[k], QuadEls(splines[k]));
        KindsAppend(outs[0], QuadEls(splines[0]));
        QuadKindsAgree(splines[k], splines[0]);
      }
    } else {
      forall k | 0 <= k < |ps| ensures Kinds(r[k]) == Kinds(r[0]) {
        KindsAppend(outs[k], [els[k]]);
        KindsAppend(outs[0], [els[0]]);
        ElTypeIdentifiesKind(els[k], els[0]);
      }
    }
  }

  lemma {:induction false} WalkKeepsLockstep(name: GlyphName, ps: seq<Path>, i: nat, starts: seq<Point>,
                                             prevs: seq<Point>, outs: seq<Path>, reduce: Reducer)
    requires Lockstep(ps) && |ps| > 0 && i <= |ps[0]|
    requires |starts| == |ps| && |prevs| == |ps| && |outs| == |ps| && Lockstep(outs)
    requires UniformSplines(reduce)
    requires Walk(name, ps, i, starts, prevs, outs, reduce).Ok?
    ensures Lockstep(Walk(name, ps, i, starts, prevs, outs, reduce).value)
    decreases |ps[0]| - i
  {
    if i < |ps[0]| {
      LockstepColumn(ps, i);
      AdvanceKeepsLockstep(name, ps, i, prevs, outs, reduce);
      var outs' := Advance(name, ps, i, prevs, outs, reduce).value;
      var els := Column(ps, i);
      var prevs' := seq(|ps|, k requires 0 <= k < |ps| => EndPoint(els[k], starts[k]));
      var starts' := if els[0].MoveTo? then prevs' else starts;
      WalkKeepsLockstep(name, ps, i + 1, starts', prevs', outs', reduce);
    }
  }

  /** With a joint reduction that keeps spline lengths equal, the reduced
      masters are again in lock-step: every location gets the same number of
      quadratics at the same positions, so they stay interpolation compatible. */
  lemma ReducedMastersStayCompatible(g: CheckedGlyph, reduce: Reducer)
    requires g.Contour? && Lockstep(PathsOf(g.paths))
    requires UniformSplines(reduce)
    requires ToQuadratics(g, reduce).Ok?
    ensures Lockstep(PathsOf(ToQuadratics(g, reduce).value.paths))
  {
    var ps := PathsOf(g.paths);
    LockstepLengths(ps);
    if ps != [] && ps[0] != [] {
      LockstepColumn(ps, 0);
      var firsts := seq(|ps|, k requires 0 <= k < |ps| => ps[k][0].p);
      var moves := seq(|ps|, k requires 0 <= k < |ps| => [ps[k][0]]);
      assert Lockstep(moves) by {
        forall k | 0 <= k < |ps| ensures Kinds(moves[k]) == Kinds(moves[0]) {
          ElTypeIdentifiesKind(ps[k][0], ps[0][0]);
        }
      }
      WalkKeepsLockstep(g.name, ps, 1, firsts, firsts, moves, reduce);
    }
  }
}
