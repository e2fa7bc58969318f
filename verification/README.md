# fontmake-rs backend core, modelled in Dafny

This project models the core of the fontmake-rs backend (`fontbe`) and
proves properties of it. The backend turns the frontend's intermediate
representation into OpenType binary tables. The model covers:

- **Glyph compilation** (`glyphs.rs`):
  - the validator `CheckedGlyph::try_from`, which checks that every master of
    a glyph agrees on its component names and on its segment kinds (the
    `path_el_type` letters);
  - the curve reducer `cubics_to_quadratics`, which walks all masters in
    lock-step and replaces every cubic with jointly reduced quadratics;
  - the `PointPen` that flattens a path into its point list;
  - `create_component` / `create_composite`, which build a 'glyf' composite
    record from the default-location components;
  - the fixpoint `compute_composite_bboxes`, which gives every composite the
    union of its components' placed boxes;
  - the glyf/loca assembly of `GlyfLocaWork::exec`.
- **The 'fvar' table** (`fvar.rs`): `generate_fvar` and the `HIDDEN_AXIS` flag.
- **Orchestration** (`orchestration.rs`):
  - the work ids `WorkId` / `AnyWorkId`, with `From`, `unwrap_be`,
    `unwrap_fe` and their derived order;
  - the backend `Context`: its copies under other access lists, and the
    features cell with its `get_features`, `set_features` and
    `maybe_persist`.

Modules follow the source:

- `Bez`, `CheckedGlyphs`, `CurveReducer`, `PointPens`, `Composites`,
  `CompositeBoxes`, `GlyfLoca` and `GlyphWorks` for `glyphs.rs`;
- `FvarTable` for `fvar.rs`;
- `WorkIds` and `Contexts` for `orchestration.rs`;
- `FontTypes`, `Errors` and `Wrappers` hold shared value types, the error
  enums and `Option`/`Result`.

Modelling conventions:

- A Rust panic is an `Err(Panic)` value (`Errors.Panic`). A `Result` error is
  an `Errors.Error`.
- A `HashMap` iterated by the source (the masters of a glyph, the name table)
  is a sequence. Its order stands for the map's iteration order.
- Coordinates are integers. The numerical routines of kurbo and write-fonts
  are function-typed parameters. From kurbo these are the joint
  cubic-to-quadratic reduction (`CurveReducer.Reducer`) and
  `transform_rect_bbox` (`CompositeBoxes.Placer`). From write-fonts they are
  `SimpleGlyph::from_kurbo` (`GlyphWorks.Encoder`) and `Glyph::to_bytes`
  (`GlyfLoca.Encoder`).
- Shared `Arc<RwLock<..>>` state is an index into a `Contexts.Store`. Copies
  of a context share the index. The persisted files live in the same store.

## Model

| member | source | states |
|---|---|---|
| Bez.Kinds | fontbe/src/glyphs.rs:375-384 | a path's kind string has one letter per element, and letter i is `path_el_type` of element i |
| Bez.ElTypeIdentifiesKind | fontbe/src/glyphs.rs:456-464 | two elements get the same `path_el_type` letter exactly when they are the same kind of element |
| Bez.KindsOfConcat | fontbe/src/glyphs.rs:378-383 | the kind string of a master's merged path is the concatenation of its contours' kind strings, which is what the validator compared |
| Bez.ContourKindsEmpty | fontbe/src/glyphs.rs:400 | a master's kind string is empty exactly when its merged path has no elements |
| CheckedGlyphs.ImageHasSeveral | fontbe/src/glyphs.rs:361-366 | collecting the masters' values into a set gives more than one element exactly when two masters disagree |
| CheckedGlyphs.Triples | fontbe/src/glyphs.rs:440-450 | a composite's triples are one (base, location, transform) per component of every master: the count matches, and membership holds in both directions |
| CheckedGlyphs.TriplesPositions | fontbe/src/glyphs.rs:440-450 | the triples keep the masters in order and each master's components in order: component k of master i sits right after the components of the masters before i and the first k of its own |
| CheckedGlyphs.Validate | fontbe/src/glyphs.rs:359-453 | InconsistentComponents iff the masters' component-name sets disagree. InconsistentPathElements iff they agree but the kind strings disagree. HasComponentsAndPath iff both agree and there are components and a path. Otherwise a contour glyph holds each master's merged contours at its location, and a composite holds the flattened triples |
| CheckedGlyphs.AgreementDecidesShape | fontbe/src/glyphs.rs:391-400 | when all masters agree, the first master's components and kind string decide whether the glyph has components and whether it has a path |
| CheckedGlyphs.ValidContourIsLockstep | fontbe/src/glyphs.rs:374-390 | every merged path of a validated contour glyph has the same kind string |
| CurveReducer.ToQuadratics | fontbe/src/glyphs.rs:227-337 | a composite comes back unchanged. For a contour glyph, IllegalPathStart iff some non-empty path does not start with a move. On success every location is kept in order and no cubic remains. The only other failures are the two conversion panics |
| CurveReducer.Advance | fontbe/src/glyphs.rs:266-311 | at a position without a cubic, every master's output grows by that master's own element. At a cubic, each master's cubic starts at its pen position and the joint reduction runs once. The step panics with QuadraticConversionFailed iff the reduction fails, and with SplineCountMismatch iff it returns a spline count other than the master count. Otherwise each master's output grows by its own spline as quadratic segments |
| CurveReducer.ReducedPathsAreConvertedPaths | fontbe/src/glyphs.rs:256-337 | for a well-started contour glyph, conversion succeeds iff every cubic position reduces to one spline per master. Each master's result is then the flat map of its elements: a non-cubic is copied, and a cubic is replaced by that master's quadratics from the joint reduction, started at the pen position |
| CurveReducer.NoCurvesUnchanged | fontbe/src/glyphs.rs:307-310 | a well-started contour glyph without cubics is returned unchanged |
| CurveReducer.AdvanceCopies | fontbe/src/glyphs.rs:307-310 | at a position without cubics each master's output grows by that master's own element |
| CurveReducer.ReducerStartsCubicsAtPenPosition | fontbe/src/glyphs.rs:256-330 | the reducer's tracked end points and subpath starts agree with a reference that starts every cubic at the master's current pen position, with `ClosePath` returning to the subpath start |
| CurveReducer.TrackStep | fontbe/src/glyphs.rs:313-330 | one update of the tracked end points yields the pen positions after the next element, and a move column yields the new subpath starts |
| CurveReducer.ReducedMastersStayCompatible | fontbe/src/glyphs.rs:287-306 | if the joint reduction gives every master the same number of quadratics, the reduced masters again share one kind string |
| CurveReducer.LockstepColumn | fontbe/src/glyphs.rs:258-267 | in lock-step masters, every master has the same length and the same element kind at each position |
| PointPens.DrawAppends | fontbe/src/glyphs.rs:195-223 | every pen call but close appends exactly the element's control and end points. Only a move sets the remembered move point. Close drops the last point when more than one point exists and the last repeats the move point; otherwise it leaves the points unchanged |
| PointPens.DrawAllWithoutClose | fontbe/src/glyphs.rs:164-168 | drawing a path without a close appends exactly its points, in order |
| PointPens.PointsOfOpenPath | fontbe/src/glyphs.rs:164-168 | an open path's point list is its elements' points in order, and there are as many as its weight |
| PointPens.PointCountBounds | fontbe/src/glyphs.rs:215-223 | each close removes at most one point, so the count lies between the weight minus the closes and the weight |
| PointPens.ClosedContourPoints | fontbe/src/glyphs.rs:215-223 | for one closed contour, the explicit closing point is dropped exactly when it repeats the start |
| PointPens.TrianglePoints | fontbe/src/glyphs.rs:626-646 | the triangle test gives the same three points with or without an explicit closing line |
| PointPens.EllipsePoints | fontbe/src/glyphs.rs:649-679 | the quadratic ellipse test gives its eight points with the start not repeated |
| Composites.GlyphIndex | fontbe/src/glyphs.rs:39-43 | the glyph id is a position holding the name, and there is none iff the name is not in the order |
| Composites.CreateComponent | fontbe/src/glyphs.rs:33-69 | NotInGlyphOrder iff the name is not in the order. The id is cut to 16 bits and names the referenced glyph when the order fits in 16 bits. Offset and 2x2 transform are copied, round-to-grid is set, and the box is the placeholder |
| Composites.Collect | fontbe/src/glyphs.rs:78-98 | the pass records one error per default-location reference that is missing from the order, in order. Every default-location component is either resolved or reported. With nothing missing, component i resolves reference i |
| Composites.AtDefaultKeepsDefault | fontbe/src/glyphs.rs:81-87 | exactly the components at the default location are kept, in their original order |
| Composites.MissingNamesMissing | fontbe/src/glyphs.rs:89-98 | a name is reported missing exactly when a kept reference uses it and the glyph order lacks it |
| Composites.CreateComposite | fontbe/src/glyphs.rs:71-115 | Ok iff nothing kept is missing and something is kept. An error lists one ComponentError per missing reference, plus NoComponents when nothing was resolved. On success component i resolves default-location reference i |
| FontTypes.Union | fontbe/src/glyphs.rs:560 | the union covers both boxes and is covered by every box that covers both |
| FontTypes.UnionAll | fontbe/src/glyphs.rs:548-560 | the folded union is the least box covering every box of the list |
| CompositeBoxes.PlaceComponents | fontbe/src/glyphs.rs:527-558 | placement succeeds iff every component names a glyph whose box is available, and then gives each component's placed box. Otherwise the first component without a box decides the outcome. If its id is outside the glyph order, the result is an out-of-range outcome carrying that id. If its glyph has no box yet, the attempt stops unready |
| CompositeBoxes.TryResolve | fontbe/src/glyphs.rs:525-562 | a composite resolves to the union of its placed boxes iff it has components and all their boxes are available. It panics with EmptyComposite iff it has no components. It panics with GlyphIndexOutOfRange, naming itself and the id, iff the first component without a box has an id outside the order. It is deferred iff that component's glyph has no box yet |
| CompositeBoxes.Retain | fontbe/src/glyphs.rs:566 | retain keeps exactly the pending names not yet acquired, as a subsequence of the pending list, so in their order. It shrinks unless nothing was acquired |
| CompositeBoxes.CompositeNames | fontbe/src/glyphs.rs:506-516 | the collected names are exactly the order's composite glyphs, without repeats, as a subsequence of the glyph order |
| CompositeBoxes.Acquire | fontbe/src/glyphs.rs:521-564 | one composite's turn: resolved iff it joins the acquired boxes, deferred only on an unavailable component. It panics with EmptyComposite iff the composite has no components. GlyphIndexOutOfRange carries the id of its first blocked component, which is outside the order. It keeps every acquired box equal to the union of its placed components and keeps the acquisition order ranked |
| CompositeBoxes.Pass | fontbe/src/glyphs.rs:521-565 | one pass keeps the invariant and only adds pending composites. If it adds nothing, every pending composite has an unavailable component. A panic names a pending composite that has no components, or that has a component whose id is outside the order |
| CompositeBoxes.ComputeCompositeBboxes | fontbe/src/glyphs.rs:495-583 | the patched table keeps its names, simple glyphs and components. Every composite's box is the union of its components' placed boxes, and no reference cycle exists. NoBboxProgress names a non-empty set of composites that each reference another stuck one. EmptyComposite names a composite without components. GlyphIndexOutOfRange names a composite with a component id outside the order. The computation succeeds iff every composite has components, all ids are in the order, and there is no reference cycle |
| CompositeBoxes.StuckCompositesFormCycle | fontbe/src/glyphs.rs:566-569 | a non-empty set of stuck composites, each referring to another stuck one, contains a reference cycle, so a stall always points at one |
| CompositeBoxes.StuckReferencesStuck | fontbe/src/glyphs.rs:567-569 | when a pass makes no progress, every stuck composite references another stuck composite |
| CompositeBoxes.PatchIsConsistent | fontbe/src/glyphs.rs:572-580 | once every composite is acquired, the patched table's boxes are consistent |
| CompositeBoxes.NoCycleWhenAllRanked | fontbe/src/glyphs.rs:519-570 | if the fixpoint acquires every composite, the composites have no reference cycle |
| CompositeBoxes.Patch | fontbe/src/glyphs.rs:572-580 | patching keeps the names, leaves unacquired glyphs alone, and gives acquired composites their box |
| GlyfLoca.Assemble | fontbe/src/glyphs.rs:600-612 | glyf is the records laid end to end. loca has one more entry than there are glyphs, starts at 0, and entry i is the u32-wrapped start of record i |
| GlyfLoca.RecordBetweenOffsets | fontbe/src/glyphs.rs:600-612 | below 4 GiB the start offsets that loca records are non-decreasing and within glyf, and the offsets of glyphs i and i+1 cut record i back out of glyf |
| GlyfLoca.LocaWrapsPastFourGiB | fontbe/src/glyphs.rs:608-610 | a first glyph of exactly 2^32 bytes wraps the second glyph's offset back to 0 |
| GlyfLoca.WrappingAdd | fontbe/src/glyphs.rs:608-610 | adding a u32-truncated length to a wrapped offset equals wrapping the exact sum |
| GlyfLoca.GlyfLocaExec | fontbe/src/glyphs.rs:590-615 | the glyphs are encoded from the input table, with simple glyphs untouched and each composite keeping its components and getting its union box. glyf is those encodings in glyph order, end to end. loca has one entry per glyph plus one, and entry i is the u32-wrapped start of glyph i. The work succeeds iff every composite has components, all ids are in the order, and there is no reference cycle |
| GlyphWorks.DefaultPath | fontbe/src/glyphs.rs:137-139 | the default path exists iff some location is the default, and it is that location's path |
| GlyphWorks.CompileChecked | fontbe/src/glyphs.rs:132-150 | a composite compiles through create_composite. A contour glyph without a default path gives MissingDefault, and one whose default path does not encode gives KurboError. Otherwise it gives the encoded default outline and every master's point list at its location |
| GlyphWorks.CompileGlyph | fontbe/src/glyphs.rs:117-161 | a validation error passes through and a reducer panic surfaces. A composite skips reduction. The point lists follow the sources' locations |
| GlyphWorks.CompiledPointsAreQuadratic | fontbe/src/glyphs.rs:128-150 | a compiled contour glyph's point lists come from reduced outlines without cubics, one per source location in order |
| FvarTable.ReverseLookup | fontbe/src/fvar.rs:31-35 | the reverse map has no id for a name iff no entry spells it. Otherwise the id belongs to the last entry spelling it |
| FvarTable.AxisRecords | fontbe/src/fvar.rs:37-57 | records come in axis order. The failure is the first axis whose name has no entry |
| FvarTable.GenerateFvar | fontbe/src/fvar.rs:24-68 | no table iff there are no variable axes. A panic occurs for an unnamed axis or more than 65535 axes. Otherwise version 1.0, one record per axis, no instances and matching counts |
| FvarTable.RecordsProjectAxes | fontbe/src/fvar.rs:42-53 | each record copies its axis's tag and coordinates. The hidden flag is set iff the axis is hidden, no other flag is set, and the name id is the last entry spelling the axis name |
| FvarTable.NoFvarWithoutVariableAxes | fontbe/src/fvar.rs:124-136 | no fvar is made without axes or with only a pinned axis |
| FvarTable.FvarIncludesOnlyVariableAxes | fontbe/src/fvar.rs:138-155 | with one variable and one pinned axis, the table holds exactly the variable axis's record |
| WorkIds.UnwrapBe | fontbe/src/orchestration.rs:36-41 | the unwrap succeeds iff the id is a backend id, it inverts `From<WorkId>`, and otherwise it panics with NotBackendId |
| WorkIds.UnwrapFe | fontbe/src/orchestration.rs:43-48 | the unwrap succeeds iff the id is a frontend id, it inverts `From<FeWorkIdentifier>`, and otherwise it panics with NotFrontendId |
| WorkIds.FromUnwrapRoundTrip | fontbe/src/orchestration.rs:36-61 | wrapping then unwrapping the same stage gives the id back, and unwrapping the other stage fails |
| WorkIds.WorkIdOrderIsVariantThenName | fontbe/src/orchestration.rs:19-25 | the derived order puts Features, then glyphs by name, then GlyphMerge, then FinalMerge |
| WorkIds.WorkIdLeIsTotalOrder | fontbe/src/orchestration.rs:19-25 | the derived order on WorkId is total, antisymmetric and transitive |
| WorkIds.AnyLe | fontbe/src/orchestration.rs:29-33 | frontend ids come before backend ids, and within a stage the stage's own order applies |
| WorkIds.AnyLeIsTotalOrder | fontbe/src/orchestration.rs:29-33 | whatever total order the frontend ids carry, the derived AnyWorkId order is total |
| Contexts.NewRoot | fontbe/src/orchestration.rs:96-104 | a root gets a fresh, empty features cell that no existing context shares, read-only access, and the given flags, paths and frontend context |
| Contexts.CopyForWork | fontbe/src/orchestration.rs:86-112 | a work's copy shares flags, paths, frontend context and features cell, and reads and writes exactly what it was granted |
| Contexts.CopyReadOnly | fontbe/src/orchestration.rs:86-94 | a read-only copy shares the state, reads everything and writes nothing |
| Contexts.MaybePersist | fontbe/src/orchestration.rs:125-132 | the file is written iff emit-ir is set, and the cells are untouched |
| Contexts.GetFeatures | fontbe/src/orchestration.rs:134-158 | AccessDenied without read access. Otherwise it succeeds iff the cell or the persisted file holds a value, returns that value and caches it in the cell, and leaves everything else alone |
| Contexts.SetFeatures | fontbe/src/orchestration.rs:140-166 | it fails iff the view cannot write. The cell then holds the font and no other cell changes, and the file is persisted iff emit-ir is set |
| Contexts.SetThenGetAcrossCopies | fontbe/src/orchestration.rs:140-166 | after one view sets the features, any view sharing the cell with read access gets exactly that value |
| Contexts.GetIsStable | fontbe/src/orchestration.rs:145-158 | once a get succeeds, later gets through any view sharing the cell return the same value and change nothing |
| Contexts.GetKeepsVisible | fontbe/src/orchestration.rs:151-156 | restoring from disk into the cache does not change what any view sees |
| Contexts.ReadOnlyViewsCannotWrite | fontbe/src/orchestration.rs:96-116 | a root and its read-only copies are denied a set. A root's get succeeds iff the file was persisted |
| Contexts.SetIsolatesRoots | fontbe/src/orchestration.rs:96-104 | setting through one root's view never touches another root's cell |

## Left out

- `features.rs`, `gvar.rs` and the frontend glyph source reader are not part of this model.
- The work scheduler, `FvarWork::exec` and `GlyphWork`'s storage of results in the context are left out. Logging is left out too. The model returns the values those works would store.
- The kurbo and write-fonts routines are left out: kurbo's cubic-to-quadratic approximation and `transform_rect_bbox`, and write-fonts' `SimpleGlyph::from_kurbo` and `Glyph::to_bytes`. They are function parameters. The model states only what the source relies on them for.
- `affine_for`'s panic on a non-offset anchor (glyphs.rs:468) is left out. `create_component` only ever makes offset anchors.
- `bbox2rect` and the float/`F2Dot14`/`i16` casts of a component's transform are left out. Integer coordinates are copied as they are.
- The variation model's delta computation and its `GlyphDeltaError` are left out. `GlyphWorks.Compiled` stops at the per-master point lists it would be fed.
- The "not enough end points" panic (glyphs.rs:268-270) is not modelled. The reducer is only called on lock-step masters, which rules it out.
- The "is not a composite" panic of the final patch (glyphs.rs:576) is not modelled. Only composites are ever acquired.
- CurveReducer.ToQuadratics: requires lock-step masters, which the validator guarantees (`GlyphWorks.ValidIsLockstep`). The source does not check this itself.
- GlyfLoca.Assemble: models release-mode u32 wrap-around. A debug build would panic on overflow instead. Exact offsets are proved only below 4 GiB.
- FvarTable.VariableAxes: a stand-in for the frontend's static metadata, which keeps only axes with `min != max`. Its contract states membership and not order.
- Contexts.MaybePersist: a failing file write (which panics in the source) is not modelled.
- Contexts.GetFeatures: the features are bytes. The source's `FontBuilder` and its `build()` are not modelled.
- fontir's `WorkId` is not part of this model. `WorkIds` keeps the frontend id as a type parameter. `Contexts` fixes it to the stand-in `WorkIds.FeWorkId`, a string key.
- `AccessControlList` is not part of this model. `Contexts.ReadOnly` assumes that `read_only()` reads everything and writes nothing.
- `RwLock` and `Arc` concurrency is left out. Operations on a `Contexts.Store` are sequential.
- A `HashMap`'s iteration order is a sequence order, as described above. The bbox fixpoint visits composites in glyph order.
- The glyph order's names are assumed distinct (`CompositeBoxes.IsTableOf`), as in the frontend's glyph order set.
