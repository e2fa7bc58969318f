/** Value types shared by the backend: glyph names, bytes, and integer
    stand-ins for kurbo's floating-point geometry. */
module FontTypes {

  /** A glyph name; Rust `GlyphName` wraps a string and orders like one. */
  type GlyphName = string

  newtype byte = x: int | 0 <= x < 256

  /** A point of the design grid (kurbo `Point`, here with integer coordinates). */
  datatype Point = Point(x: int, y: int)

  const Origin := Point(0, 0)

  /** An axis-aligned rectangle (kurbo `Rect`): corner (x0, y0) to corner (x1, y1). */
  datatype Rect = Rect(x0: int, y0: int, x1: int, y1: int)

  /** The 2x2 linear part and offset of a component placement (kurbo `Affine`
      coefficients a, b, c, d, e, f). */
  datatype Affine = Affine(xx: int, yx: int, xy: int, yy: int, dx: int, dy: int)

  /** A normalized design-space location: axis name to normalized coordinate.
      Only ever compared for exact equality. */
  datatype Location = Location(coords: map<string, int>)

  function Min(a: int, b: int): int { if a <= b then a else b }

  function Max(a: int, b: int): int { if a <= b then b else a }

  /** `outer` spans every coordinate range `inner` spans. */
  predicate Covers(outer: Rect, inner: Rect) {
    outer.x0 <= inner.x0 && outer.y0 <= inner.y0 && inner.x1 <= outer.x1 && inner.y1 <= outer.y1
  }

  /** kurbo `Rect::union`: the smallest rectangle covering both arguments. */
  function Union(a: Rect, b: Rect): (r: Rect)
    ensures Covers(r, a) && Covers(r, b)
    ensures forall q :: Covers(q, a) && Covers(q, b) ==> Covers(q, r)
  {
    Rect(Min(a.x0, b.x0), Min(a.y0, b.y0), Max(a.x1, b.x1), Max(a.y1, b.y1))
  }

  /** `reduce(|acc, e| acc.union(e))` over a non-empty list of boxes. */
  function UnionAll(rs: seq<Rect>): (r: Rect)
    requires |rs| > 0
    ensures forall i :: 0 <= i < |rs| ==> Covers(r, rs[i])
    ensures forall q :: (forall i :: 0 <= i < |rs| ==> Covers(q, rs[i])) ==> Covers(q, r)
  {
    if |rs| == 1 then rs[0] else Union(UnionAll(rs[..|rs| - 1]), rs[|rs| - 1])
  }

  /** `sub` is `s` with some elements left out and the rest kept in their
      order. Each element of `sub` is matched to its earliest occurrence. */
  predicate IsSubsequence<T(==)>(sub: seq<T>, s: seq<T>)
    decreases |s|
  {
    if sub == [] then true
    else if s == [] then false
    else if sub[0] == s[0] then IsSubsequence(sub[1..], s[1..])
    else IsSubsequence(sub, s[1..])
  }

  /** Leaving out the first element of a subsequence keeps it one. */
  lemma {:induction false} SubsequenceDropHead<T>(sub: seq<T>, s: seq<T>)
    requires sub != [] && IsSubsequence(sub, s)
    ensures IsSubsequence(sub[1..], s)
    decreases |s|, 1
  {
    if sub[0] == s[0] {
      SubsequenceSkip(sub[1..], s);
    } else {
      SubsequenceDropHead(sub, s[1..]);
      SubsequenceSkip(sub[1..], s);
    }
  }

  /** A subsequence of the tail is a subsequence of the whole. */
  lemma {:induction false} SubsequenceSkip<T>(sub: seq<T>, s: seq<T>)
    requires s != [] && IsSubsequence(sub, s[1..])
    ensures IsSubsequence(sub, s)
    decreases |s|, 0
  {
    if sub != [] && sub[0] == s[0] {
      SubsequenceDropHead(sub, s[1..]);
    }
  }
}
