/** Binary glyph records and `create_composite` / `create_component`: a
    checked composite becomes a 'glyf' composite record built from its
    default-location components, every unresolvable reference reported. */
module Composites {
  import opened Wrappers
  import opened FontTypes
  import opened Errors
  import CheckedGlyphs

  /** The finalized glyph order: glyph id `i` names `order[i]`. */
  type GlyphOrder = seq<GlyphName>

  /** Glyph ids are 16-bit in 'glyf' composite records. */
  const GidModulus: nat := 0x1_0000

  /** A 'glyf' component: referenced glyph id, offset anchor (dx, dy), 2x2
      transform and the round-to-grid flag. */
  datatype GlyfComponent = GlyfComponent(
    glyph: nat, dx: int, dy: int, xx: int, yx: int, xy: int, yy: int, roundXyToGrid: bool)

  datatype CompositeGlyph = CompositeGlyph(components: seq<GlyfComponent>, bbox: Rect)

  /** A compiled simple glyph: its bounding box is known from its own outline;
      the outline itself is opaque here. */
  datatype SimpleGlyph = SimpleGlyph(bbox: Rect, outline: seq<byte>)

  datatype Glyph = Simple(simple: SimpleGlyph) | Composite(composite: CompositeGlyph)

  /** The box a composite starts with until the bounding-box pass patches it. */
  const Placeholder := Rect(0, 0, 0, 0)

  /** `glyph_id` of the glyph order: the position of a name. */
  function GlyphIndex(order: GlyphOrder, name: GlyphName): (r: Option<nat>)
    ensures r.Some? ==> r.value < |order| && order[r.value] == name
    ensures r.None? <==> name !in order
  {
    if order == [] then None
    else if order[0] == name then Some(0)
    else match GlyphIndex(order[1..], name)
      case None => None
      case Some(i) => Some(i + 1)
  }

  /** `create_component`: look the referenced glyph up in the glyph order and
      keep the placement; the id is cut to 16 bits (`gid as u16`). */
  function CreateComponent(order: GlyphOrder, refName: GlyphName, t: Affine)
    : (r: Result<(GlyfComponent, Rect), GlyphProblem>)
    ensures r.Err? <==> refName !in order
    ensures r.Err? ==> r.error == NotInGlyphOrder
    ensures r.Ok? ==> r.value.1 == Placeholder && r.value.0.roundXyToGrid
    ensures r.Ok? ==> r.value.0.glyph < GidModulus
    ensures r.Ok? && |order| <= GidModulus ==> r.value.0.glyph < |order| && order[r.value.0.glyph] == refName
    ensures r.Ok? ==> (r.value.0.dx, r.value.0.dy) == (t.dx, t.dy)
                      && (r.value.0.xx, r.value.0.yx, r.value.0.xy, r.value.0.yy) == (t.xx, t.yx, t.xy, t.yy)
  {
    match GlyphIndex(order, refName)
    case None => Err(NotInGlyphOrder)
    case Some(gid) =>
      Ok((GlyfComponent(gid % GidModulus, t.dx, t.dy, t.xx, t.yx, t.xy, t.yy, true), Placeholder))
  }

  /** The components placed at the default location, in order. */
  function AtDefault(cs: seq<CheckedGlyphs.ComponentRef>, default: Location): seq<CheckedGlyphs.ComponentRef>
  {
    if cs == [] then []
    else (if cs[0].loc == default then [cs[0]] else []) + AtDefault(cs[1..], default)
  }

  /** The referenced names that the glyph order does not contain, in order. */
  function Missing(cs: seq<CheckedGlyphs.ComponentRef>, order: GlyphOrder): seq<GlyphName>
  {
    if cs == [] then []
    else (if cs[0].base !in order then [cs[0].base] else []) + Missing(cs[1..], order)
  }

  /** The error reported for each missing reference. */
  function MissingErrors(name: GlyphName, missing: seq<GlyphName>): (r: seq<Error>)
    ensures |r| == |missing|
  {
    seq(|missing|, i requires 0 <= i < |missing| => ComponentError(name, missing[i], NotInGlyphOrder))
  }

  /** A binary component is the resolution of an IR component reference. */
  predicate Resolves(order: GlyphOrder, component: GlyfComponent, ref: CheckedGlyphs.ComponentRef)
  {
    && GlyphIndex(order, ref.base).Some?
    && component.glyph == GlyphIndex(order, ref.base).value % GidModulus
    && component == CreateComponent(order, ref.base, ref.transform).value.0
  }

  /** The single pass of `create_composite`: components away from the default
      location are skipped, every other one is either resolved or recorded as
      an error, and the pass never stops early. */
  function Collect(order: GlyphOrder, name: GlyphName, default: Location, cs: seq<CheckedGlyphs.ComponentRef>)
    : (r: (seq<GlyfComponent>, seq<Error>))
    ensures r.1 == MissingErrors(name, Missing(AtDefault(cs, default), order))
    ensures |r.0| + |r.1| == |AtDefault(cs, default)|
    ensures Missing(AtDefault(cs, default), order) == [] ==>
      forall i :: 0 <= i < |r.0| ==> Resolves(order, r.0[i], AtDefault(cs, default)[i])
  {
    if cs == [] then ([], [])
    else
      var rest := Collect(order, name, default, cs[1..]);
      var tailKept := AtDefault(cs[1..], default);
      if cs[0].loc != default then
        assert AtDefault(cs, default) == tailKept;
        rest
      else
        var kept := AtDefault(cs, default);
        assert kept == [cs[0]] + tailKept;
        assert kept[1..] == tailKept;
        match CreateComponent(order, cs[0].base, cs[0].transform)
        case Ok((component, _)) =>
          assert Missing(kept, order) == Missing(tailKept, order);
          var r := ([component] + rest.0, rest.1);
          assert Missing(kept, order) == [] ==> forall i :: 0 <= i < |r.0| ==> Resolves(order, r.0[i], kept[i]) by {
            if Missing(kept, order) == [] {
              forall i | 0 <= i < |r.0|
                ensures Resolves(order, r.0[i], kept[i])
              {
                if i > 0 {
                  assert r.0[i] == rest.0[i - 1] && kept[i] == tailKept[i - 1];
                }
              }
            }
          }
          r
        case Err(problem) =>
          assert Missing(kept, order) == [cs[0].base] + Missing(tailKept, order);
          assert MissingErrors(name, Missing(kept, order))
              == [ComponentError(name, cs[0].base, problem)] + MissingErrors(name, Missing(tailKept, order));
          (rest.0, [ComponentError(name, cs[0].base, problem)] + rest.1)
  }

  /** Exactly the default-location components are kept. */
  lemma {:induction false} AtDefaultKeepsDefault(cs: seq<CheckedGlyphs.ComponentRef>, default: Location)
    ensures forall c :: c in AtDefault(cs, default) <==> c in cs && c.loc == default
    ensures IsSubsequence(AtDefault(cs, default), cs)
  {
    if cs != [] {
      AtDefaultKeepsDefault(cs[1..], default);
      assert cs == [cs[0]] + cs[1..];
      var tail := AtDefault(cs[1..], default);
      if cs[0].loc == default {
        assert ([cs[0]] + tail)[1..] == tail;
      } else {
        assert AtDefault(cs, default) == tail;
        SubsequenceSkip(tail, cs);
      }
    }
  }

  /** A name is reported missing exactly when some reference uses it and the
      glyph order lacks it. */
  lemma {:induction false} MissingNamesMissing(cs: seq<CheckedGlyphs.ComponentRef>, order: GlyphOrder)
    ensures forall n :: n in Missing(cs, order) <==> n !in order && exists c :: c in cs && c.base == n
  {
    if cs != [] {
      MissingNamesMissing(cs[1..], order);
      assert cs == [cs[0]] + cs[1..];
    }
  }

  /** `create_composite`: every missing reference yields one error naming both
      glyphs, and a composite with nothing resolved also reports
      `NoComponents`; any error fails the whole glyph. */
  function CreateComposite(order: GlyphOrder, name: GlyphName, default: Location, cs: seq<CheckedGlyphs.ComponentRef>)
    : (r: Result<CompositeGlyph, Error>)
    ensures var kept := AtDefault(cs, default);
            var missing := Missing(kept, order);
            && (r.Ok? <==> missing == [] && kept != [])
            && (r.Err? ==> r.error == ComponentErrors(name,
                  MissingErrors(name, missing) + (if |missing| == |kept| then [GlyphError(name, NoComponents)] else [])))
            && (r.Ok? ==> |r.value.components| == |kept| && r.value.bbox == Placeholder
                          && forall i :: 0 <= i < |kept| ==> Resolves(order, r.value.components[i], kept[i]))
  {
    var (resolved, errors) := Collect(order, name, default, cs);
    var errors := if resolved == [] then errors + [GlyphError(name, NoComponents)] else errors;
    if errors != [] then Err(ComponentErrors(name, errors))
    else Ok(CompositeGlyph(resolved, Placeholder))
  }
}
