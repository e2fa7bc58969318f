/** The backend's error values (`Error`, `GlyphProblem`) and, separately, the
    places where the source panics, which the model reports as `Panic` values. */
module Errors {
  import opened FontTypes

  datatype GlyphProblem =
    | InconsistentComponents
    | InconsistentPathElements
    | HasComponentsAndPath
    | MissingDefault
    | NotInGlyphOrder
    | NoComponents

  datatype Error =
    | GlyphError(glyph: GlyphName, problem: GlyphProblem)
    | ComponentError(glyph: GlyphName, referencedGlyph: GlyphName, problem: GlyphProblem)
    | ComponentErrors(glyph: GlyphName, errors: seq<Error>)
    | KurboError(glyph: GlyphName)

  /** A panic of the source: a fatal internal-consistency failure. */
  datatype Panic =
    | IllegalPathStart(glyph: GlyphName)
    | QuadraticConversionFailed(glyph: GlyphName)
    | SplineCountMismatch(glyph: GlyphName, splines: nat, locations: nat)
    | GlyphIndexOutOfRange(glyph: GlyphName, gid: nat)
    | EmptyComposite(glyph: GlyphName)
    | NoBboxProgress(stuck: seq<GlyphName>)
    | MissingAxisName(axis: string)
    | TooManyAxes(count: nat)
    | NotBackendId
    | NotFrontendId
    | AccessDenied
    | RestoreFailed
}
