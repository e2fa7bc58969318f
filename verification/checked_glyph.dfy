/** The glyph validator: `CheckedGlyph::try_from` turns a multi-master IR glyph
    into either a composite (flattened component references) or a contour
    glyph (one merged path per master), refusing masters that disagree. */
module CheckedGlyphs {
  import opened Wrappers
  import opened FontTypes
  import opened Errors
  import opened Bez

  /** An IR component: the referenced glyph and its placement. */
  datatype Component = Component(base: GlyphName, transform: Affine)

  /** One master's drawing: contours, components, or (invalidly) both. */
  datatype GlyphInstance = GlyphInstance(contours: seq<Path>, components: seq<Component>)

  datatype Source = Source(loc: Location, instance: GlyphInstance)

  /** An IR glyph. The source keeps its masters in a map keyed by location;
      the sequence order here stands for that map's iteration order. */
  datatype IrGlyph = IrGlyph(name: GlyphName, sources: seq<Source>)

  /** One (reference name, location, transform) triple of a composite. */
  datatype ComponentRef = ComponentRef(base: GlyphName, loc: Location, transform: Affine)

  datatype LocPath = LocPath(loc: Location, path: Path)

  datatype CheckedGlyph =
    | Composite(name: GlyphName, components: seq<ComponentRef>)
    | Contour(name: GlyphName, paths: seq<LocPath>)

  /** The set of glyph names one master references, transforms ignored. */
  function ComponentNames(inst: GlyphInstance): set<GlyphName>
  {
    set c | c in inst.components :: c.base
  }

  function NameSets(srcs: seq<Source>): seq<set<GlyphName>>
  {
    seq(|srcs|, i requires 0 <= i < |srcs| => ComponentNames(srcs[i].instance))
  }

  function KindStrings(srcs: seq<Source>): seq<string>
  {
    seq(|srcs|, i requires 0 <= i < |srcs| => ContourKinds(srcs[i].instance.contours))
  }

  /** The set of distinct values of a sequence (a `HashSet` collected from it). */
  function Image<T>(s: seq<T>): set<T>
  {
    set x | x in s
  }

  ghost predicate AllAgree<T>(s: seq<T>)
  {
    forall i, j :: 0 <= i < |s| && 0 <= j < |s| ==> s[i] == s[j]
  }

  /** Collecting into a set and finding more than one element is the same as
      two positions of the sequence disagreeing. */
  lemma ImageHasSeveral<T>(s: seq<T>)
    ensures |Image(s)| > 1 <==> !AllAgree(s)
  {
    if AllAgree(s) {
      if s != [] {
        assert Image(s) <= {s[0]};
        SubsetCard(Image(s), {s[0]});
      } else {
        assert Image(s) == {};
      }
    } else {
      var i, j :| 0 <= i < |s| && 0 <= j < |s| && s[i] != s[j];
      assert {s[i], s[j]} <= Image(s);
      assert |{s[i], s[j]}| == 2;
      SubsetCard({s[i], s[j]}, Image(s));
    }
  }

  lemma SubsetCard<T>(a: set<T>, b: set<T>)
    requires a <= b
    ensures |a| <= |b|
  {
    assert b == a + (b - a);
  }

  predicate HasComponents(srcs: seq<Source>)
  {
    exists i :: 0 <= i < |srcs| && srcs[i].instance.components != []
  }

  predicate HasPath(srcs: seq<Source>)
  {
    exists i :: 0 <= i < |srcs| && Concat(srcs[i].instance.contours) != []
  }

  /** The triple contributed by component `k` of master `i`. */
  function RefAt(srcs: seq<Source>, i: nat, k: nat): ComponentRef
    requires i < |srcs| && k < |srcs[i].instance.components|
  {
    var c := srcs[i].instance.components[k];
    ComponentRef(c.base, srcs[i].loc, c.transform)
  }

  function CountComponents(srcs: seq<Source>): nat
  {
    if srcs == [] then 0 else |srcs[0].instance.components| + CountComponents(srcs[1..])
  }

  /** Component `k` of master `i` sits in the flattened list after every
      component of the masters before `i` and after the first `k` of master
      `i` itself: masters in order, each master's components in order. */
  lemma {:induction false} TriplesPositions(srcs: seq<Source>, i: nat, k: nat)
    requires i < |srcs| && k < |srcs[i].instance.components|
    ensures CountComponents(srcs[..i]) + k < |Triples(srcs)|
    ensures Triples(srcs)[CountComponents(srcs[..i]) + k] == RefAt(srcs, i, k)
  {
    if i == 0 {
      assert srcs[..0] == [];
    } else {
      assert srcs[..i][1..] == srcs[1..][..i - 1];
      TriplesPositions(srcs[1..], i - 1, k);
      assert RefAt(srcs[1..], i - 1, k) == RefAt(srcs, i, k);
    }
  }

  /** The flattened components of a composite: one triple per (master,
      component), masters in order and each master's components in order. */
  function Triples(srcs: seq<Source>): (r: seq<ComponentRef>)
    ensures |r| == CountComponents(srcs)
    ensures forall i, k :: 0 <= i < |srcs| && 0 <= k < |srcs[i].instance.components| ==> RefAt(srcs, i, k) in r
    ensures forall t :: t in r ==>
      exists i, k :: 0 <= i < |srcs| && 0 <= k < |srcs[i].instance.components| && t == RefAt(srcs, i, k)
  {
    if srcs == [] then []
    else
      var head := seq(|srcs[0].instance.components|,
                      k requires 0 <= k < |srcs[0].instance.components| => RefAt(srcs, 0, k));
      var tail := Triples(srcs[1..]);
      assert forall i, k :: 1 <= i < |srcs| && 0 <= k < |srcs[i].instance.components| ==> RefAt(srcs, i, k) in tail by {
        forall i, k | 1 <= i < |srcs| && 0 <= k < |srcs[i].instance.components|
          ensures RefAt(srcs, i, k) in tail
        {
          assert RefAt(srcs, i, k) == RefAt(srcs[1..], i - 1, k);
        }
      }
      assert forall k :: 0 <= k < |srcs[0].instance.components| ==> RefAt(srcs, 0, k) == head[k];
      assert forall t :: t in tail ==>
        exists i, k :: 1 <= i < |srcs| && 0 <= k < |srcs[i].instance.components| && t == RefAt(srcs, i, k) by {
        forall t | t in tail
          ensures exists i, k :: 1 <= i < |srcs| && 0 <= k < |srcs[i].instance.components| && t == RefAt(srcs, i, k)
        {
          var i, k :| 0 <= i < |srcs[1..]| && 0 <= k < |srcs[1..][i].instance.components| && t == RefAt(srcs[1..], i, k);
          assert t == RefAt(srcs, i + 1, k);
        }
      }
      head + tail
  }

  /** Each master's contours merged into one path, keyed by its location. */
  function MergedPaths(srcs: seq<Source>): seq<LocPath>
  {
    seq(|srcs|, i requires 0 <= i < |srcs| => LocPath(srcs[i].loc, Concat(srcs[i].instance.contours)))
  }

  /** `CheckedGlyph::try_from`. The component-set check runs first, then the
      segment-kind check, then the components-and-paths check. */
  function Validate(g: IrGlyph): (r: Result<CheckedGlyph, Error>)
    ensures r == Err(GlyphError(g.name, InconsistentComponents)) <==> !AllAgree(NameSets(g.sources))
    ensures r == Err(GlyphError(g.name, InconsistentPathElements)) <==>
      AllAgree(NameSets(g.sources)) && !AllAgree(KindStrings(g.sources))
    ensures r == Err(GlyphError(g.name, HasComponentsAndPath)) <==>
      AllAgree(NameSets(g.sources)) && AllAgree(KindStrings(g.sources))
      && HasComponents(g.sources) && HasPath(g.sources)
    ensures r.Err? ==> r.error.GlyphError? && r.error.glyph == g.name
    ensures r.Ok? && !HasComponents(g.sources) ==>
      r.value.Contour? && r.value.name == g.name && |r.value.paths| == |g.sources|
      && forall i :: 0 <= i < |g.sources| ==>
           r.value.paths[i] == LocPath(g.sources[i].loc, Concat(g.sources[i].instance.contours))
    ensures r.Ok? && HasComponents(g.sources) ==>
      r.value.Composite? && r.value.name == g.name && r.value.components == Triples(g.sources)
  {
    var srcs := g.sources;
    ImageHasSeveral(NameSets(srcs));
    ImageHasSeveral(KindStrings(srcs));
    if |Image(NameSets(srcs))| > 1 then
      Err(GlyphError(g.name, InconsistentComponents))
    else if |Image(KindStrings(srcs))| > 1 then
      Err(GlyphError(g.name, InconsistentPathElements))
    else
      // the one element of each (at most singleton) set, or the empty default
      var components := if srcs == [] then {} else ComponentNames(srcs[0].instance);
      var pathEls := if srcs == [] then "" else ContourKinds(srcs[0].instance.contours);
      AgreementDecidesShape(srcs);
      if components != {} && pathEls != "" then
        Err(GlyphError(g.name, HasComponentsAndPath))
      else if components == {} then
        Ok(Contour(g.name, MergedPaths(srcs)))
      else
        Ok(Composite(g.name, Triples(srcs)))
  }

  /** When all masters agree, the first master decides whether the glyph has
      components and whether it has a path. */
  lemma AgreementDecidesShape(srcs: seq<Source>)
    requires AllAgree(NameSets(srcs)) && AllAgree(KindStrings(srcs))
    ensures (srcs != [] && ComponentNames(srcs[0].instance) != {}) <==> HasComponents(srcs)
    ensures (srcs != [] && ContourKinds(srcs[0].instance.contours) != "") <==> HasPath(srcs)
  {
    if HasComponents(srcs) {
      var i :| 0 <= i < |srcs| && srcs[i].instance.components != [];
      assert srcs[i].instance.components[0].base in NameSets(srcs)[i];
      assert NameSets(srcs)[i] == NameSets(srcs)[0];
    }
    if srcs != [] && ComponentNames(srcs[0].instance) != {} {
      assert srcs[0].instance.components != [];
    }
    if HasPath(srcs) {
      var i :| 0 <= i < |srcs| && Concat(srcs[i].instance.contours) != [];
      ContourKindsEmpty(srcs[i].instance.contours);
      assert KindStrings(srcs)[i] == KindStrings(srcs)[0];
    }
    if srcs != [] {
      ContourKindsEmpty(srcs[0].instance.contours);
    }
  }

  /** Every location's merged path of a validated contour glyph has the same
      kind string: the masters can be walked in lock-step. */
  lemma {:induction false} ValidContourIsLockstep(g: IrGlyph)
    requires Validate(g).Ok? && Validate(g).value.Contour?
    ensures forall i, j :: 0 <= i < |Validate(g).value.paths| && 0 <= j < |Validate(g).value.paths| ==>
      Kinds(Validate(g).value.paths[i].path) == Kinds(Validate(g).value.paths[j].path)
  {
    var ps := Validate(g).value.paths;
    forall i, j | 0 <= i < |ps| && 0 <= j < |ps|
      ensures Kinds(ps[i].path) == Kinds(ps[j].path)
    {
      KindsOfConcat(g.sources[i].instance.contours);
      KindsOfConcat(g.sources[j].instance.contours);
      assert KindStrings(g.sources)[i] == KindStrings(g.sources)[j];
    }
  }
}
