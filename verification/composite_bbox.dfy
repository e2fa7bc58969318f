/** `compute_composite_bboxes`: the bounding box of a composite glyph is the
    union of its components' boxes under their placements, and components may
    themselves be composites. The boxes are found by repeated passes over the
    still-pending composites until none remain; a pass without progress is a
    fatal error (a reference cycle). */
module CompositeBoxes {
  import opened Wrappers
  import opened FontTypes
  import opened Errors
  import opened Composites

  /** `affine_for(component).transform_rect_bbox(rect)`: the box of a glyph
      placed by a component. Floating-point geometry outside this model. */
  type Placer = (GlyfComponent, Rect) -> Rect

  predicate Distinct<T(==)>(s: seq<T>)
  {
    forall i, j :: 0 <= i < j < |s| ==> s[i] != s[j]
  }

  predicate IsComposite(glyphs: map<GlyphName, Glyph>, n: GlyphName)
  {
    n in glyphs && glyphs[n].Composite?
  }

  /** The glyph table of a glyph order: one glyph per name, nothing else. */
  ghost predicate IsTableOf(order: GlyphOrder, glyphs: map<GlyphName, Glyph>)
  {
    Distinct(order) && forall n :: n in glyphs <==> n in order
  }

  /** The box a referenced glyph can contribute now: a composite's once it is
      acquired, a simple glyph's own box, otherwise none. */
  function Avail(glyphs: map<GlyphName, Glyph>, acquired: map<GlyphName, Rect>, n: GlyphName): Option<Rect>
  {
    if n in acquired then Some(acquired[n])
    else if n in glyphs && glyphs[n].Simple? then Some(glyphs[n].simple.bbox)
    else None
  }

  /** Every component names a glyph of the order whose box is available. */
  predicate AllAvailable(order: GlyphOrder, glyphs: map<GlyphName, Glyph>, acquired: map<GlyphName, Rect>,
                         cs: seq<GlyfComponent>)
  {
    forall i :: 0 <= i < |cs| ==> cs[i].glyph < |order| && Avail(glyphs, acquired, order[cs[i].glyph]).Some?
  }

  /** Some component names a glyph of the order whose box is not available. */
  predicate HasUnavailableChild(order: GlyphOrder, glyphs: map<GlyphName, Glyph>, acquired: map<GlyphName, Rect>,
                                cs: seq<GlyfComponent>)
  {
    exists i :: 0 <= i < |cs| && cs[i].glyph < |order| && Avail(glyphs, acquired, order[cs[i].glyph]).None?
  }

  /** The placed box of every component. */
  function PlacedBoxes(order: GlyphOrder, glyphs: map<GlyphName, Glyph>, acquired: map<GlyphName, Rect>,
                       cs: seq<GlyfComponent>, place: Placer): (r: seq<Rect>)
    requires AllAvailable(order, glyphs, acquired, cs)
    ensures |r| == |cs|
  {
    seq(|cs|, i requires 0 <= i < |cs| && AllAvailable(order, glyphs, acquired, cs) =>
      place(cs[i], Avail(glyphs, acquired, order[cs[i].glyph]).value))
  }

  /** Component `i` is where the per-component pass stops: every component
      before it has a box available, and it names an id outside the glyph
      order or a glyph whose box is not available yet. */
  predicate FirstBlocked(order: GlyphOrder, glyphs: map<GlyphName, Glyph>, acquired: map<GlyphName, Rect>,
                         cs: seq<GlyfComponent>, i: int)
  {
    && 0 <= i < |cs|
    && AllAvailable(order, glyphs, acquired, cs[..i])
    && !(cs[i].glyph < |order| && Avail(glyphs, acquired, order[cs[i].glyph]).Some?)
  }

  lemma FirstBlockedUnique(order: GlyphOrder, glyphs: map<GlyphName, Glyph>, acquired: map<GlyphName, Rect>,
                           cs: seq<GlyfComponent>, i: int, j: int)
    requires FirstBlocked(order, glyphs, acquired, cs, i) && FirstBlocked(order, glyphs, acquired, cs, j)
    ensures i == j
  {
  }

  /** A first component without a box is the one and only first blocked
      component. */
  lemma BlockedAtHead(order: GlyphOrder, glyphs: map<GlyphName, Glyph>, acquired: map<GlyphName, Rect>,
                      cs: seq<GlyfComponent>)
    requires |cs| > 0 && !(cs[0].glyph < |order| && Avail(glyphs, acquired, order[cs[0].glyph]).Some?)
    ensures FirstBlocked(order, glyphs, acquired, cs, 0)
    ensures forall j :: FirstBlocked(order, glyphs, acquired, cs, j) ==> j == 0
  {
    assert AllAvailable(order, glyphs, acquired, cs[..0]);
    forall j | FirstBlocked(order, glyphs, acquired, cs, j)
      ensures j == 0
    {
      FirstBlockedUnique(order, glyphs, acquired, cs, j, 0);
    }
  }

  /** Past an available first component, the first blocked component is the
      one first blocked in the rest, one position further on. */
  lemma BlockedInTail(order: GlyphOrder, glyphs: map<GlyphName, Glyph>, acquired: map<GlyphName, Rect>,
                      cs: seq<GlyfComponent>, i: int)
    requires |cs| > 0 && cs[0].glyph < |order| && Avail(glyphs, acquired, order[cs[0].glyph]).Some?
    requires FirstBlocked(order, glyphs, acquired, cs[1..], i)
    ensures FirstBlocked(order, glyphs, acquired, cs, i + 1) && cs[i + 1] == cs[1..][i]
    ensures forall j :: FirstBlocked(order, glyphs, acquired, cs, j) ==> j == i + 1
  {
    var pre, rest := cs[..i + 1], cs[1..][..i];
    assert pre == [cs[0]] + rest;
    forall k | 0 <= k < |pre|
      ensures pre[k].glyph < |order| && Avail(glyphs, acquired, order[pre[k].glyph]).Some?
    {
      if k > 0 { assert pre[k] == rest[k - 1]; }
    }
    assert cs[1..][i] == cs[i + 1];
    forall j | FirstBlocked(order, glyphs, acquired, cs, j)
      ensures j == i + 1
    {
      FirstBlockedUnique(order, glyphs, acquired, cs, j, i + 1);
    }
  }

  datatype Placement = Placed(boxes: seq<Rect>) | Unready | OutOfRange(gid: nat)

  /** The source's per-component `filter_map`: components are visited in
      order, an id outside the glyph order panics, and the first component
      without a box stops the attempt. Which of the two happens is decided by
      the first blocked component alone. */
  function PlaceComponents(order: GlyphOrder, glyphs: map<GlyphName, Glyph>, acquired: map<GlyphName, Rect>,
                           cs: seq<GlyfComponent>, place: Placer): (r: Placement)
    ensures r.Placed? <==> AllAvailable(order, glyphs, acquired, cs)
    ensures r.Placed? ==> r.boxes == PlacedBoxes(order, glyphs, acquired, cs, place)
    ensures r.Unready? ==> HasUnavailableChild(order, glyphs, acquired, cs)
    ensures r.Unready? <==> exists i :: FirstBlocked(order, glyphs, acquired, cs, i) && cs[i].glyph < |order|
    ensures r.OutOfRange? <==> exists i :: FirstBlocked(order, glyphs, acquired, cs, i) && cs[i].glyph >= |order|
    ensures r.OutOfRange? ==> exists i :: FirstBlocked(order, glyphs, acquired, cs, i) && cs[i].glyph == r.gid
    decreases |cs|
  {
    if cs == [] then Placed([])
    else if cs[0].glyph >= |order| then
      BlockedAtHead(order, glyphs, acquired, cs);
      OutOfRange(cs[0].glyph)
    else match Avail(glyphs, acquired, order[cs[0].glyph])
      case None =>
        BlockedAtHead(order, glyphs, acquired, cs);
        Unready
      case Some(b) =>
        match PlaceComponents(order, glyphs, acquired, cs[1..], place)
        case Placed(rest) =>
          assert AllAvailable(order, glyphs, acquired, cs) by {
            forall i | 0 <= i < |cs|
              ensures cs[i].glyph < |order| && Avail(glyphs, acquired, order[cs[i].glyph]).Some?
            {
              if i > 0 { assert cs[i] == cs[1..][i - 1]; }
            }
          }
          assert [place(cs[0], b)] + rest == PlacedBoxes(order, glyphs, acquired, cs, place) by {
            forall i | 1 <= i < |cs|
              ensures ([place(cs[0], b)] + rest)[i] == PlacedBoxes(order, glyphs, acquired, cs, place)[i]
            {
              assert cs[i] == cs[1..][i - 1];
            }
          }
          Placed([place(cs[0], b)] + rest)
        case Unready =>
          var i :| FirstBlocked(order, glyphs, acquired, cs[1..], i) && cs[1..][i].glyph < |order|;
          BlockedInTail(order, glyphs, acquired, cs, i);
          Unready
        case OutOfRange(gid) =>
          var i :| FirstBlocked(order, glyphs, acquired, cs[1..], i) && cs[1..][i].glyph == gid;
          BlockedInTail(order, glyphs, acquired, cs, i);
          OutOfRange(gid)
  }

  datatype Attempt = Resolved(box: Rect) | Deferred | Panicked(panic: Panic)

  /** One composite's turn in a pass: it panics when it has no components or
      when its first blocked component names an id outside the glyph order,
      waits when that component's glyph has no box yet, and otherwise gets
      the union of its placed component boxes. */
  function TryResolve(order: GlyphOrder, glyphs: map<GlyphName, Glyph>, acquired: map<GlyphName, Rect>,
                      name: GlyphName, place: Placer): (r: Attempt)
    requires IsComposite(glyphs, name)
    ensures var cs := glyphs[name].composite.components;
            && (r.Resolved? <==> cs != [] && AllAvailable(order, glyphs, acquired, cs))
            && (r.Resolved? ==> r.box == UnionAll(PlacedBoxes(order, glyphs, acquired, cs, place)))
            && (r.Deferred? ==> HasUnavailableChild(order, glyphs, acquired, cs))
            && (r == Panicked(EmptyComposite(name)) <==> cs == [])
            && (r.Deferred? <==> exists i :: FirstBlocked(order, glyphs, acquired, cs, i) && cs[i].glyph < |order|)
            && (r.Panicked? ==> r.panic == EmptyComposite(name) || r.panic.GlyphIndexOutOfRange?)
            && (r.Panicked? && r.panic.GlyphIndexOutOfRange? <==>
                  exists i :: FirstBlocked(order, glyphs, acquired, cs, i) && cs[i].glyph >= |order|)
            && (r.Panicked? && r.panic.GlyphIndexOutOfRange? ==>
                  && r.panic.glyph == name
                  && exists i :: FirstBlocked(order, glyphs, acquired, cs, i) && cs[i].glyph == r.panic.gid)
  {
    match PlaceComponents(order, glyphs, acquired, glyphs[name].composite.components, place)
    case Placed(boxes) =>
      // `reduce(union).unwrap()` on a composite without components
      if boxes == [] then Panicked(EmptyComposite(name)) else Resolved(UnionAll(boxes))
    case Unready => Deferred
    case OutOfRange(gid) => Panicked(GlyphIndexOutOfRange(name, gid))
  }

  /** Panic `p` raised on composite `n`'s turn has its cause in `n`: `n` has
      no components, or one of them names an id outside the glyph order. */
  predicate PanicCause(order: GlyphOrder, glyphs: map<GlyphName, Glyph>, n: GlyphName, p: Panic)
    requires IsComposite(glyphs, n)
  {
    var cs := glyphs[n].composite.components;
    || (p == EmptyComposite(n) && cs == [])
    || (p.GlyphIndexOutOfRange? && p.glyph == n && p.gid >= |order|
        && exists i :: 0 <= i < |cs| && cs[i].glyph == p.gid)
  }

  /** Every composite has components, each naming a glyph of the order. */
  predicate ComponentsWellFormed(order: GlyphOrder, glyphs: map<GlyphName, Glyph>)
  {
    forall n :: n in glyphs && glyphs[n].Composite? ==>
      && glyphs[n].composite.components != []
      && forall i :: 0 <= i < |glyphs[n].composite.components| ==> glyphs[n].composite.components[i].glyph < |order|
  }

  /** Every acquired box is a composite's and is the union of its placed
      component boxes, all of which were available. */
  ghost predicate Settled(order: GlyphOrder, glyphs: map<GlyphName, Glyph>, acquired: map<GlyphName, Rect>, place: Placer)
  {
    forall n :: n in acquired ==>
      && IsComposite(glyphs, n)
      && glyphs[n].composite.components != []
      && AllAvailable(order, glyphs, acquired, glyphs[n].composite.components)
      && acquired[n] == UnionAll(PlacedBoxes(order, glyphs, acquired, glyphs[n].composite.components, place))
  }

  /** Composite `n` has a component referring to `c`. */
  predicate References(order: GlyphOrder, glyphs: map<GlyphName, Glyph>, n: GlyphName, c: GlyphName)
  {
    IsComposite(glyphs, n)
    && exists i :: 0 <= i < |glyphs[n].composite.components|
                   && glyphs[n].composite.components[i].glyph < |order|
                   && order[glyphs[n].composite.components[i].glyph] == c
  }

  /** The order in which boxes were acquired: a composite's acquired
      components were acquired before it. */
  ghost predicate Ranked(order: GlyphOrder, glyphs: map<GlyphName, Glyph>, acquired: map<GlyphName, Rect>,
                         rank: map<GlyphName, nat>, clock: nat)
  {
    && rank.Keys == acquired.Keys
    && (forall n :: n in rank ==> rank[n] < clock)
    && (forall n, c :: n in rank && c in rank && References(order, glyphs, n, c) ==> rank[c] < rank[n])
  }

  lemma InsertKeepsPlaced(order: GlyphOrder, glyphs: map<GlyphName, Glyph>, acquired: map<GlyphName, Rect>,
                          m: GlyphName, b: Rect, cs: seq<GlyfComponent>, place: Placer)
    requires IsComposite(glyphs, m) && m !in acquired
    requires AllAvailable(order, glyphs, acquired, cs)
    ensures AllAvailable(order, glyphs, acquired[m := b], cs)
    ensures PlacedBoxes(order, glyphs, acquired[m := b], cs, place) == PlacedBoxes(order, glyphs, acquired, cs, place)
  {
    forall i | 0 <= i < |cs|
      ensures Avail(glyphs, acquired[m := b], order[cs[i].glyph]) == Avail(glyphs, acquired, order[cs[i].glyph])
    {
      // an available glyph is not the pending composite `m`
      assert order[cs[i].glyph] != m;
    }
  }

  /** Acquiring the box of a resolvable composite keeps the acquired boxes
      settled. */
  lemma AcquireKeepsSettled(order: GlyphOrder, glyphs: map<GlyphName, Glyph>, acquired: map<GlyphName, Rect>,
                            m: GlyphName, place: Placer)
    requires Settled(order, glyphs, acquired, place)
    requires IsComposite(glyphs, m) && m !in acquired
    requires TryResolve(order, glyphs, acquired, m, place).Resolved?
    ensures Settled(order, glyphs, acquired[m := TryResolve(order, glyphs, acquired, m, place).box], place)
  {
    var b := TryResolve(order, glyphs, acquired, m, place).box;
    var acquired' := acquired[m := b];
    forall n | n in acquired'
      ensures AllAvailable(order, glyphs, acquired', glyphs[n].composite.components)
      ensures acquired'[n] == UnionAll(PlacedBoxes(order, glyphs, acquired', glyphs[n].composite.components, place))
    {
      InsertKeepsPlaced(order, glyphs, acquired, m, b, glyphs[n].composite.components, place);
    }
  }

  /** Acquiring a composite whose components are all available gives it a
      rank above every rank so far: the ranking stays consistent. */
  lemma {:induction false} AcquireKeepsRanked(order: GlyphOrder, glyphs: map<GlyphName, Glyph>,
                                              acquired: map<GlyphName, Rect>, rank: map<GlyphName, nat>,
                                              clock: nat, m: GlyphName, b: Rect, place: Placer)
    requires Settled(order, glyphs, acquired, place) && Ranked(order, glyphs, acquired, rank, clock)
    requires IsComposite(glyphs, m) && m !in acquired
    requires AllAvailable(order, glyphs, acquired, glyphs[m].composite.components)
    ensures Ranked(order, glyphs, acquired[m := b], rank[m := clock], clock + 1)
  {
    var rank' := rank[m := clock];
    forall n, c | n in rank' && c in rank' && References(order, glyphs, n, c)
      ensures rank'[c] < rank'[n]
    {
      var cs := glyphs[n].composite.components;
      var i :| 0 <= i < |cs| && cs[i].glyph < |order| && order[cs[i].glyph] == c;
      // every component of an acquired composite, or of `m`, was available
      assert Avail(glyphs, acquired, order[cs[i].glyph]).Some?;
      assert c != m;
    }
  }

  lemma AcquireKeepsInvariant(order: GlyphOrder, glyphs: map<GlyphName, Glyph>,
                              acquired: map<GlyphName, Rect>, rank: map<GlyphName, nat>,
                              clock: nat, m: GlyphName, place: Placer)
    requires Settled(order, glyphs, acquired, place) && Ranked(order, glyphs, acquired, rank, clock)
    requires IsComposite(glyphs, m) && m !in acquired
    requires TryResolve(order, glyphs, acquired, m, place).Resolved?
    ensures var acquired' := acquired[m := TryResolve(order, glyphs, acquired, m, place).box];
            Settled(order, glyphs, acquired', place) && Ranked(order, glyphs, acquired', rank[m := clock], clock + 1)
  {
    AcquireKeepsSettled(order, glyphs, acquired, m, place);
    AcquireKeepsRanked(order, glyphs, acquired, rank, clock, m, TryResolve(order, glyphs, acquired, m, place).box, place);
  }

  /** `composites.retain(|(gn, _)| !bbox_acquired.contains_key(gn))`. */
  function Retain(pending: seq<GlyphName>, acquired: map<GlyphName, Rect>): (r: seq<GlyphName>)
    ensures forall n :: n in r <==> n in pending && n !in acquired
    ensures |r| <= |pending|
    ensures |r| == |pending| ==> r == pending
    ensures Distinct(pending) ==> Distinct(r)
    ensures IsSubsequence(r, pending)
  {
    if pending == [] then []
    else
      var rest := Retain(pending[1..], acquired);
      assert forall n :: n in pending <==> n == pending[0] || n in pending[1..];
      if pending[0] in acquired then
        SubsequenceSkip(rest, pending);
        rest
      else
        assert Distinct(pending) ==> pending[0] !in pending[1..];
        assert ([pending[0]] + rest)[1..] == rest;
        [pending[0]] + rest
  }

  /** The names of the order's composite glyphs, in order. */
  function CompositeNames(order: GlyphOrder, glyphs: map<GlyphName, Glyph>): (r: seq<GlyphName>)
    ensures forall n :: n in r <==> n in order && IsComposite(glyphs, n)
    ensures Distinct(order) ==> Distinct(r)
    ensures IsSubsequence(r, order)
  {
    if order == [] then []
    else
      var rest := CompositeNames(order[1..], glyphs);
      assert forall n :: n in order <==> n == order[0] || n in order[1..];
      if IsComposite(glyphs, order[0]) then
        assert Distinct(order) ==> order[0] !in order[1..];
        assert ([order[0]] + rest)[1..] == rest;
        [order[0]] + rest
      else
        SubsequenceSkip(rest, order);
        rest
  }

  /** The box a finished table records for a glyph. */
  function BoxOf(g: Glyph): Rect
  {
    if g.Simple? then g.simple.bbox else g.composite.bbox
  }

  predicate ComponentsInTable(order: GlyphOrder, table: map<GlyphName, Glyph>, cs: seq<GlyfComponent>)
  {
    forall i :: 0 <= i < |cs| ==> cs[i].glyph < |order| && order[cs[i].glyph] in table
  }

  function TableBoxes(order: GlyphOrder, table: map<GlyphName, Glyph>, cs: seq<GlyfComponent>, place: Placer)
    : (r: seq<Rect>)
    requires ComponentsInTable(order, table, cs)
    ensures |r| == |cs|
  {
    seq(|cs|, i requires 0 <= i < |cs| && ComponentsInTable(order, table, cs) =>
      place(cs[i], BoxOf(table[order[cs[i].glyph]])))
  }

  /** Every composite's recorded box is the union of its components' placed
      boxes, each read from the same table. */
  ghost predicate BoxesConsistent(order: GlyphOrder, table: map<GlyphName, Glyph>, place: Placer)
  {
    forall n :: n in table && table[n].Composite? ==>
      && table[n].composite.components != []
      && ComponentsInTable(order, table, table[n].composite.components)
      && table[n].composite.bbox == UnionAll(TableBoxes(order, table, table[n].composite.components, place))
  }

  /** The successor of position `i` on a closed walk. */
  function Next(cyc: seq<GlyphName>, i: nat): GlyphName
    requires i < |cyc|
  {
    if i + 1 < |cyc| then cyc[i + 1] else cyc[0]
  }

  /** A reference cycle among composites. */
  ghost predicate IsCycle(order: GlyphOrder, glyphs: map<GlyphName, Glyph>, cyc: seq<GlyphName>)
  {
    |cyc| > 0 && forall i :: 0 <= i < |cyc| ==> References(order, glyphs, cyc[i], Next(cyc, i))
  }

  /** A composite glyph with its box replaced; anything else unchanged. */
  function WithBox(g: Glyph, b: Rect): (r: Glyph)
    ensures g.Composite? ==> r.Composite? && r.composite.components == g.composite.components && r.composite.bbox == b
    ensures g.Simple? ==> r == g
  {
    if g.Composite? then Composite(g.composite.(bbox := b)) else g
  }

  /** The patch after the fixpoint: only the acquired composites get their box. */
  function Patch(glyphs: map<GlyphName, Glyph>, acquired: map<GlyphName, Rect>): (r: map<GlyphName, Glyph>)
    ensures r.Keys == glyphs.Keys
    ensures forall n :: n in glyphs && n !in acquired ==> r[n] == glyphs[n]
    ensures forall n :: n in glyphs && n in acquired ==> r[n] == WithBox(glyphs[n], acquired[n])
  {
    map n | n in glyphs :: if n in acquired then WithBox(glyphs[n], acquired[n]) else glyphs[n]
  }

  /** Once every composite is acquired, the patched table is consistent. */
  lemma PatchIsConsistent(order: GlyphOrder, glyphs: map<GlyphName, Glyph>, acquired: map<GlyphName, Rect>, place: Placer)
    requires IsTableOf(order, glyphs)
    requires Settled(order, glyphs, acquired, place)
    requires forall n :: IsComposite(glyphs, n) ==> n in acquired
    ensures BoxesConsistent(order, Patch(glyphs, acquired), place)
  {
    var table := Patch(glyphs, acquired);
    forall n | n in table && table[n].Composite?
      ensures ComponentsInTable(order, table, table[n].composite.components)
      ensures table[n].composite.bbox == UnionAll(TableBoxes(order, table, table[n].composite.components, place))
    {
      var cs := glyphs[n].composite.components;
      assert table[n].composite.components == cs;
      forall i | 0 <= i < |cs|
        ensures order[cs[i].glyph] in table
        ensures BoxOf(table[order[cs[i].glyph]]) == Avail(glyphs, acquired, order[cs[i].glyph]).value
      {
      }
      assert TableBoxes(order, table, cs, place) == PlacedBoxes(order, glyphs, acquired, cs, place);
    }
  }

  /** Along a walk whose ranks strictly fall, the rank at position `i` is at
      least `i` below the first. */
  lemma {:induction false} RanksFallAlongPath(rank: map<GlyphName, nat>, cyc: seq<GlyphName>, i: nat)
    requires forall k :: 0 <= k < |cyc| ==> cyc[k] in rank
    requires forall k :: 0 < k < |cyc| ==> rank[cyc[k]] < rank[cyc[k - 1]]
    requires i < |cyc|
    ensures rank[cyc[i]] + i <= rank[cyc[0]]
  {
    if i > 0 {
      RanksFallAlongPath(rank, cyc, i - 1);
    }
  }

  /** Ranked acquisition of every composite rules out reference cycles. */
  lemma NoCycleWhenAllRanked(order: GlyphOrder, glyphs: map<GlyphName, Glyph>, rank: map<GlyphName, nat>,
                             clock: nat, acquired: map<GlyphName, Rect>, cyc: seq<GlyphName>)
    requires Ranked(order, glyphs, acquired, rank, clock)
    requires forall n :: IsComposite(glyphs, n) ==> n in acquired
    ensures !IsCycle(order, glyphs, cyc)
  {
    if IsCycle(order, glyphs, cyc) {
      forall k | 0 <= k < |cyc|
        ensures cyc[k] in rank
      {
        assert References(order, glyphs, cyc[k], Next(cyc, k));
      }
      forall k | 0 < k < |cyc|
        ensures rank[cyc[k]] < rank[cyc[k - 1]]
      {
        assert References(order, glyphs, cyc[k - 1], Next(cyc, k - 1));
      }
      var last := |cyc| - 1;
      RanksFallAlongPath(rank, cyc, last);
      assert false;
    }
  }

  /** One composite's turn: try to resolve it against the boxes acquired so
      far and, if it resolves, acquire its box. */
  method Acquire(order: GlyphOrder, glyphs: map<GlyphName, Glyph>, place: Placer, name: GlyphName,
                 acquired: map<GlyphName, Rect>, ghost rank: map<GlyphName, nat>, ghost clock: nat)
    returns (attempt: Attempt, acquired': map<GlyphName, Rect>, ghost rank': map<GlyphName, nat>, ghost clock': nat)
    requires Settled(order, glyphs, acquired, place) && Ranked(order, glyphs, acquired, rank, clock)
    requires IsComposite(glyphs, name) && name !in acquired
    ensures attempt.Resolved? <==> name in acquired'
    ensures attempt.Deferred? ==> HasUnavailableChild(order, glyphs, acquired, glyphs[name].composite.components)
    ensures attempt.Panicked? ==> attempt.panic.EmptyComposite? || attempt.panic.GlyphIndexOutOfRange?
    ensures attempt.Panicked? ==> PanicCause(order, glyphs, name, attempt.panic)
    ensures attempt == Panicked(EmptyComposite(name)) <==> glyphs[name].composite.components == []
    ensures attempt.Panicked? && attempt.panic.GlyphIndexOutOfRange? ==>
      exists i :: FirstBlocked(order, glyphs, acquired, glyphs[name].composite.components, i)
                  && glyphs[name].composite.components[i].glyph == attempt.panic.gid
    ensures attempt.Resolved? ==> acquired' == acquired[name := attempt.box]
    ensures !attempt.Resolved? ==> acquired' == acquired
    ensures Settled(order, glyphs, acquired', place) && Ranked(order, glyphs, acquired', rank', clock')
  {
    attempt := TryResolve(order, glyphs, acquired, name, place);
    if attempt.Resolved? {
      AcquireKeepsInvariant(order, glyphs, acquired, rank, clock, name, place);
      acquired' := acquired[name := attempt.box];
      rank' := rank[name := clock];
      clock' := clock + 1;
    } else {
      acquired', rank', clock' := acquired, rank, clock;
    }
  }

  /** One pass over the pending composites, each seeing the boxes acquired
      before it, in this pass or earlier ones. */
  method Pass(order: GlyphOrder, glyphs: map<GlyphName, Glyph>, place: Placer, pending: seq<GlyphName>,
              acquired0: map<GlyphName, Rect>, ghost rank0: map<GlyphName, nat>, ghost clock0: nat)
    returns (r: Result<map<GlyphName, Rect>, Panic>, ghost rank: map<GlyphName, nat>, ghost clock: nat)
    requires Settled(order, glyphs, acquired0, place) && Ranked(order, glyphs, acquired0, rank0, clock0)
    requires Distinct(pending)
    requires forall n :: n in pending ==> IsComposite(glyphs, n) && n !in acquired0
    ensures r.Ok? ==> Settled(order, glyphs, r.value, place) && Ranked(order, glyphs, r.value, rank, clock)
    ensures r.Ok? ==> forall n :: n in r.value ==> n in acquired0 || n in pending
    ensures r.Ok? ==> forall n :: n in acquired0 ==> n in r.value
    ensures r.Ok? && (forall n :: n in pending ==> n !in r.value) ==>
      forall n :: n in pending && IsComposite(glyphs, n) ==> HasUnavailableChild(order, glyphs, r.value, glyphs[n].composite.components)
    ensures r.Err? ==> r.error.EmptyComposite? || r.error.GlyphIndexOutOfRange?
    ensures r.Err? ==> (r.error.EmptyComposite? || r.error.GlyphIndexOutOfRange?)
                       && r.error.glyph in pending && PanicCause(order, glyphs, r.error.glyph, r.error)
  {
    var acquired := acquired0;
    rank, clock := rank0, clock0;
    ghost var progressed := false;
    ghost var firstGain := 0;
    var j := 0;
    while j < |pending|
      invariant 0 <= j <= |pending|
      invariant Settled(order, glyphs, acquired, place) && Ranked(order, glyphs, acquired, rank, clock)
      invariant forall k :: j <= k < |pending| ==> pending[k] !in acquired
      invariant forall n :: n in acquired ==> n in acquired0 || n in pending
      invariant forall n :: n in acquired0 ==> n in acquired
      invariant forall k :: 0 <= k < |pending| ==> IsComposite(glyphs, pending[k])
      invariant progressed ==> firstGain < j && pending[firstGain] in acquired
      invariant !progressed ==> acquired == acquired0
      invariant !progressed ==>
        forall k :: 0 <= k < j ==> HasUnavailableChild(order, glyphs, acquired, glyphs[pending[k]].composite.components)
    {
      var attempt;
      attempt, acquired, rank, clock := Acquire(order, glyphs, place, pending[j], acquired, rank, clock);
      if attempt.Panicked? {
        return Err(attempt.panic), rank, clock;
      }
      if attempt.Resolved? && !progressed {
        progressed, firstGain := true, j;
      }
      j := j + 1;
    }
    r := Ok(acquired);
  }

  /** `compute_composite_bboxes` over the glyph table of `order` (composites
      visited in glyph order). On success simple glyphs are untouched, every
      composite keeps its components and records the union of its placed
      component boxes, and there was no reference cycle. A pass without
      progress fails, naming the stuck composites, each of which refers to
      another stuck one. The computation succeeds exactly when every
      composite has components, every component id is inside the glyph
      order, and no composite refers back to itself through other
      composites. */
  method ComputeCompositeBboxes(order: GlyphOrder, glyphs: map<GlyphName, Glyph>, place: Placer)
    returns (r: Result<map<GlyphName, Glyph>, Panic>)
    requires IsTableOf(order, glyphs)
    ensures r.Ok? ==> r.value.Keys == glyphs.Keys
    ensures r.Ok? ==> forall n :: n in glyphs && glyphs[n].Simple? ==> r.value[n] == glyphs[n]
    ensures r.Ok? ==> forall n :: n in glyphs && glyphs[n].Composite? ==>
      r.value[n].Composite? && r.value[n].composite.components == glyphs[n].composite.components
    ensures r.Ok? ==> BoxesConsistent(order, r.value, place)
    ensures r.Ok? ==> forall cyc :: !IsCycle(order, glyphs, cyc)
    ensures r.Err? && r.error.NoBboxProgress? ==>
      && r.error.stuck != []
      && (forall n :: n in r.error.stuck ==> IsComposite(glyphs, n))
      && (forall n :: n in r.error.stuck ==> exists c :: c in r.error.stuck && References(order, glyphs, n, c))
    ensures r.Err? ==> r.error.NoBboxProgress? || r.error.EmptyComposite? || r.error.GlyphIndexOutOfRange?
    ensures r.Err? && !r.error.NoBboxProgress? ==>
      (r.error.EmptyComposite? || r.error.GlyphIndexOutOfRange?)
      && IsComposite(glyphs, r.error.glyph) && PanicCause(order, glyphs, r.error.glyph, r.error)
    ensures r.Ok? ==> ComponentsWellFormed(order, glyphs)
    ensures ComponentsWellFormed(order, glyphs) && (forall cyc :: !IsCycle(order, glyphs, cyc)) ==> r.Ok?
  {
    var pending := CompositeNames(order, glyphs);
    var acquired: map<GlyphName, Rect> := map[];
    ghost var rank: map<GlyphName, nat> := map[];
    ghost var clock: nat := 0;
    while pending != []
      invariant Settled(order, glyphs, acquired, place) && Ranked(order, glyphs, acquired, rank, clock)
      invariant Distinct(pending)
      invariant forall n :: n in pending ==> IsComposite(glyphs, n) && n !in acquired
      invariant forall n :: IsComposite(glyphs, n) ==> n in pending || n in acquired
      decreases |pending|
    {
      var before := |pending|;
      var outcome;
      outcome, rank, clock := Pass(order, glyphs, place, pending, acquired, rank, clock);
      if outcome.Err? {
        return Err(outcome.error);
      }
      acquired := outcome.value;
      var remaining := Retain(pending, acquired);
      if |remaining| == before {
        StuckReferencesStuck(order, glyphs, acquired, remaining);
        forall n | n in remaining
          ensures RefersInto(order, glyphs, remaining, n)
        {
        }
        StuckCompositesFormCycle(order, glyphs, remaining);
        return Err(NoBboxProgress(remaining));
      }
      pending := remaining;
    }
    forall cyc
      ensures !IsCycle(order, glyphs, cyc)
    {
      NoCycleWhenAllRanked(order, glyphs, rank, clock, acquired, cyc);
    }
    PatchIsConsistent(order, glyphs, acquired, place);
    return Ok(Patch(glyphs, acquired));
  }

  /** Composites that wait on an unavailable glyph wait on another waiting
      composite: every glyph of the order is either simple, acquired or
      waiting. */
  lemma StuckReferencesStuck(order: GlyphOrder, glyphs: map<GlyphName, Glyph>, acquired: map<GlyphName, Rect>,
                             stuck: seq<GlyphName>)
    requires IsTableOf(order, glyphs)
    requires forall n :: IsComposite(glyphs, n) ==> n in stuck || n in acquired
    requires forall n :: n in stuck ==> IsComposite(glyphs, n)
    requires forall n :: n in stuck && IsComposite(glyphs, n) ==> HasUnavailableChild(order, glyphs, acquired, glyphs[n].composite.components)
    ensures forall n :: n in stuck ==> exists c :: c in stuck && References(order, glyphs, n, c)
  {
    forall n | n in stuck
      ensures exists c :: c in stuck && References(order, glyphs, n, c)
    {
      var cs := glyphs[n].composite.components;
      var i :| 0 <= i < |cs| && cs[i].glyph < |order| && Avail(glyphs, acquired, order[cs[i].glyph]).None?;
      var c := order[cs[i].glyph];
      assert IsComposite(glyphs, c);
      assert References(order, glyphs, n, c);
    }
  }

  /** A sequence of distinct names drawn from `pool` is no longer than it. */
  lemma {:induction false} DistinctWithin(w: seq<GlyphName>, pool: seq<GlyphName>)
    requires Distinct(w) && forall k :: 0 <= k < |w| ==> w[k] in pool
    ensures |w| <= |pool|
    decreases |w|
  {
    if w != [] {
      var x := w[|w| - 1];
      var p :| 0 <= p < |pool| && pool[p] == x;
      var pool' := pool[..p] + pool[p + 1..];
      forall k | 0 <= k < |w| - 1
        ensures w[k] in pool'
      {
        var q :| 0 <= q < |pool| && pool[q] == w[k];
        if q < p { assert pool'[q] == w[k]; } else { assert pool'[q - 1] == w[k]; }
      }
      DistinctWithin(w[..|w| - 1], pool');
    }
  }

  /** Composite `n` refers to a name of `stuck`. */
  predicate RefersInto(order: GlyphOrder, glyphs: map<GlyphName, Glyph>, stuck: seq<GlyphName>, n: GlyphName)
  {
    exists c :: c in stuck && References(order, glyphs, n, c)
  }

  /** A walk of `len` reference steps that stays among the stuck composites. */
  lemma {:induction false} StuckWalk(order: GlyphOrder, glyphs: map<GlyphName, Glyph>, stuck: seq<GlyphName>,
                                     len: nat) returns (w: seq<GlyphName>)
    requires stuck != []
    requires forall n {:trigger RefersInto(order, glyphs, stuck, n)} :: n in stuck ==> RefersInto(order, glyphs, stuck, n)
    ensures |w| == len + 1 && forall k :: 0 <= k < |w| ==> w[k] in stuck
    ensures forall k :: 0 <= k < len ==> References(order, glyphs, w[k], w[k + 1])
  {
    if len == 0 {
      w := [stuck[0]];
    } else {
      var w0 := StuckWalk(order, glyphs, stuck, len - 1);
      assert w0[len - 1] in stuck;
      assert RefersInto(order, glyphs, stuck, w0[len - 1]);
      var c :| c in stuck && References(order, glyphs, w0[len - 1], c);
      w := w0 + [c];
      assert forall k :: 0 <= k < len ==> w[k] == w0[k];
    }
  }

  /** Stuck composites that each refer to another stuck one contain a
      reference cycle: a walk longer than the stuck list repeats a name. */
  lemma StuckCompositesFormCycle(order: GlyphOrder, glyphs: map<GlyphName, Glyph>, stuck: seq<GlyphName>)
    requires stuck != []
    requires forall n {:trigger RefersInto(order, glyphs, stuck, n)} :: n in stuck ==> RefersInto(order, glyphs, stuck, n)
    ensures exists cyc :: IsCycle(order, glyphs, cyc)
  {
    var w := StuckWalk(order, glyphs, stuck, |stuck|);
    assert !Distinct(w) by {
      if Distinct(w) {
        DistinctWithin(w, stuck);
      }
    }
    var i, j :| 0 <= i < j < |w| && w[i] == w[j];
    ClosedWalkIsCycle(order, glyphs, w, i, j);
  }

  /** The stretch of a reference walk between two visits of the same name is
      a cycle. */
  lemma ClosedWalkIsCycle(order: GlyphOrder, glyphs: map<GlyphName, Glyph>, w: seq<GlyphName>, i: nat, j: nat)
    requires i < j < |w| && w[i] == w[j]
    requires forall k :: 0 <= k < |w| - 1 ==> References(order, glyphs, w[k], w[k + 1])
    ensures IsCycle(order, glyphs, w[i..j])
  {
    var cyc := w[i..j];
    forall k | 0 <= k < |cyc|
      ensures References(order, glyphs, cyc[k], Next(cyc, k))
    {
      assert cyc[k] == w[i + k];
      assert Next(cyc, k) == w[i + k + 1];
    }
  }
}
