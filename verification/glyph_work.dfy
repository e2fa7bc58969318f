/** `GlyphWork::exec`: one glyph's backend compilation. The frontend glyph is
    validated, its cubics reduced to quadratics, and then either compiled to
    a composite record or, for a contour glyph, its default outline encoded
    and every master's point list extracted for the variation model. */
module GlyphWorks {
  import opened Wrappers
  import opened FontTypes
  import opened Errors
  import opened Bez
  import opened CheckedGlyphs
  import opened CurveReducer
  import opened PointPens
  import opened Composites

  /** write-fonts' `SimpleGlyph::from_kurbo`: encoding a quadratic outline,
      outside this model; `None` is its error, reported as `KurboError`. */
  type Encoder = Path -> Option<SimpleGlyph>

  /** What the work leaves in the context: the glyph record and, for a
      contour glyph, each master's point list (the input of the delta
      computation, which is outside this model). */
  datatype Compiled =
    | CompiledComposite(name: GlyphName, composite: CompositeGlyph)
    | CompiledSimple(name: GlyphName, simple: SimpleGlyph, points: seq<(Location, seq<Point>)>)

  /** The work returns an error, or panics. */
  datatype Failure = Failed(error: Error) | Panicked(panic: Panic)

  /** `paths.get(default_location)`. */
  function DefaultPath(lps: seq<LocPath>, default: Location): (r: Option<Path>)
    ensures r.None? <==> forall k :: 0 <= k < |lps| ==> lps[k].loc != default
    ensures r.Some? ==> exists k :: 0 <= k < |lps| && lps[k].loc == default && lps[k].path == r.value
  {
    if lps == [] then None
    else if lps[0].loc == default then Some(lps[0].path)
    else
      var r := DefaultPath(lps[1..], default);
      assert forall k :: 1 <= k < |lps| ==> lps[k] == lps[1..][k - 1];
      r
  }

  /** The compilation of an already reduced checked glyph. */
  function CompileChecked(order: GlyphOrder, default: Location, irName: GlyphName, g: CheckedGlyph, encode: Encoder)
    : (r: Result<Compiled, Failure>)
    ensures g.Composite? ==>
      match CreateComposite(order, g.name, default, g.components)
      case Ok(c) => r == Ok(CompiledComposite(g.name, c))
      case Err(e) => r == Err(Failed(e))
    ensures g.Contour? && DefaultPath(g.paths, default).None? ==> r == Err(Failed(GlyphError(irName, MissingDefault)))
    ensures g.Contour? && DefaultPath(g.paths, default).Some? ==>
      match encode(DefaultPath(g.paths, default).value)
      case None => r == Err(Failed(KurboError(irName)))
      case Some(s) =>
        && r.Ok? && r.value.CompiledSimple? && r.value.name == g.name && r.value.simple == s
        && |r.value.points| == |g.paths|
        && forall k :: 0 <= k < |g.paths| ==> r.value.points[k] == (g.paths[k].loc, Points(g.paths[k].path))
  {
    if g.Composite? then
      var created := CreateComposite(order, g.name, default, g.components);
      if created.Err? then Err(Failed(created.error)) else Ok(CompiledComposite(g.name, created.value))
    else
      var lps := g.paths;
      match DefaultPath(lps, default)
      case None => Err(Failed(GlyphError(irName, MissingDefault)))
      case Some(path) =>
        match encode(path)
        case None => Err(Failed(KurboError(irName)))
        case Some(s) =>
          Ok(CompiledSimple(g.name, s, seq(|lps|, k requires 0 <= k < |lps| => (lps[k].loc, Points(lps[k].path)))))
  }

  lemma ValidIsLockstep(g: IrGlyph)
    requires Validate(g).Ok? && Validate(g).value.Contour?
    ensures Lockstep(PathsOf(Validate(g).value.paths))
  {
    ValidContourIsLockstep(g);
  }

  /** `cubics_to_quadratics` applied to a validated glyph. */
  function Reduced(g: IrGlyph, reduce: Reducer): Result<CheckedGlyph, Panic>
    requires Validate(g).Ok?
  {
    if Validate(g).value.Contour? then ValidIsLockstep(g); ToQuadratics(Validate(g).value, reduce)
    else ToQuadratics(Validate(g).value, reduce)
  }

  /** `GlyphWork::exec` for one frontend glyph. */
  function CompileGlyph(order: GlyphOrder, default: Location, g: IrGlyph, reduce: Reducer, encode: Encoder)
    : (r: Result<Compiled, Failure>)
    ensures Validate(g).Err? ==> r == Err(Failed(Validate(g).error))
    ensures Validate(g).Ok? && Reduced(g, reduce).Err? ==> r == Err(Panicked(Reduced(g, reduce).error))
    ensures Validate(g).Ok? && Reduced(g, reduce).Ok? ==>
      r == CompileChecked(order, default, g.name, Reduced(g, reduce).value, encode)
    ensures Validate(g).Ok? && Validate(g).value.Composite? ==> Reduced(g, reduce) == Ok(Validate(g).value)
    ensures r.Ok? && r.value.CompiledSimple? ==>
      forall k :: 0 <= k < |r.value.points| ==> r.value.points[k].0 == g.sources[k].loc
  {
    match Validate(g)
    case Err(e) => Err(Failed(e))
    case Ok(checked) =>
      if checked.Composite? then
        CompileChecked(order, default, g.name, checked, encode)
      else
        ValidIsLockstep(g);
        match ToQuadratics(checked, reduce)
        case Err(p) => Err(Panicked(p))
        case Ok(quads) => CompileChecked(order, default, g.name, quads, encode)
  }

  /** A compiled contour glyph's masters carry no cubic any more and its
      point lists are those of the reduced outlines, one per source location
      in source order. */
  lemma CompiledPointsAreQuadratic(order: GlyphOrder, default: Location, g: IrGlyph, reduce: Reducer, encode: Encoder)
    requires CompileGlyph(order, default, g, reduce, encode).Ok?
    requires CompileGlyph(order, default, g, reduce, encode).value.CompiledSimple?
    ensures var c := CompileGlyph(order, default, g, reduce, encode).value;
            && |c.points| == |g.sources|
            && exists q: CheckedGlyph ::
                 && q.Contour? && |q.paths| == |g.sources|
                 && (forall k :: 0 <= k < |q.paths| ==> !HasCurve(q.paths[k].path) && q.paths[k].loc == g.sources[k].loc)
                 && forall k :: 0 <= k < |q.paths| ==> c.points[k].1 == Points(q.paths[k].path)
  {
    var checked := Validate(g).value;
    if checked.Composite? {
      assert false;
    }
    ValidIsLockstep(g);
    var q := ToQuadratics(checked, reduce).value;
    assert q.Contour? && |q.paths| == |g.sources|;
  }
}
