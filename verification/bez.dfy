/** Bezier path elements (kurbo `PathEl`, `BezPath`) and the segment-kind
    string the glyph validator compares across masters. */
module Bez {
  import opened FontTypes

  datatype PathEl =
    | MoveTo(p: Point)
    | LineTo(p: Point)
    | QuadTo(c: Point, p: Point)
    | CurveTo(c1: Point, c2: Point, p: Point)
    | ClosePath

  type Path = seq<PathEl>

  /** glyphs.rs `path_el_type`: one letter per element kind. */
  function ElType(el: PathEl): char
  {
    match el
    case MoveTo(_) => 'M'
    case LineTo(_) => 'L'
    case QuadTo(_, _) => 'Q'
    case CurveTo(_, _, _) => 'C'
    case ClosePath => 'Z'
  }

  /** Two elements have the same kind, whatever their points. */
  predicate SameKind(a: PathEl, b: PathEl) {
    (a.MoveTo? && b.MoveTo?) || (a.LineTo? && b.LineTo?) || (a.QuadTo? && b.QuadTo?)
    || (a.CurveTo? && b.CurveTo?) || (a.ClosePath? && b.ClosePath?)
  }

  /** The letter of an element identifies its kind and nothing more. */
  lemma ElTypeIdentifiesKind(a: PathEl, b: PathEl)
    ensures ElType(a) == ElType(b) <==> SameKind(a, b)
  {
  }

  /** The segment-kind string of one path: its elements' letters in order. */
  function Kinds(path: Path): (s: string)
    ensures |s| == |path|
    ensures forall i :: 0 <= i < |path| ==> s[i] == ElType(path[i])
  {
    if path == [] then "" else [ElType(path[0])] + Kinds(path[1..])
  }

  /** Several contours merged into one path, in order, without re-closing. */
  function Concat(contours: seq<Path>): Path
  {
    if contours == [] then [] else contours[0] + Concat(contours[1..])
  }

  /** The kind strings of several contours, concatenated (the per-master
      string collected by `CheckedGlyph::try_from`). */
  function ContourKinds(contours: seq<Path>): string
  {
    if contours == [] then "" else Kinds(contours[0]) + ContourKinds(contours[1..])
  }

  lemma {:induction false} KindsAppend(a: Path, b: Path)
    ensures Kinds(a + b) == Kinds(a) + Kinds(b)
  {
    var l, r := Kinds(a + b), Kinds(a) + Kinds(b);
    assert |l| == |r|;
    forall i | 0 <= i < |l| ensures l[i] == r[i] {
      if i < |a| {
        assert (a + b)[i] == a[i];
      } else {
        assert (a + b)[i] == b[i - |a|];
      }
    }
  }

  /** Merging contours commutes with taking kind strings: the merged path of a
      master has exactly the kind string the validator compared. */
  lemma {:induction false} KindsOfConcat(contours: seq<Path>)
    ensures Kinds(Concat(contours)) == ContourKinds(contours)
  {
    if contours != [] {
      KindsOfConcat(contours[1..]);
      KindsAppend(contours[0], Concat(contours[1..]));
    }
  }

  /** A master's kind string is empty exactly when its merged path is. */
  lemma {:induction false} ContourKindsEmpty(contours: seq<Path>)
    ensures ContourKinds(contours) == "" <==> Concat(contours) == []
  {
    KindsOfConcat(contours);
  }

  predicate HasCurve(path: Path) {
    exists i :: 0 <= i < |path| && path[i].CurveTo?
  }

  /** Where the pen returns to on `ClosePath`: the point of the most recent
      `MoveTo` of the prefix (the origin if there is none). */
  function SubpathStart(prefix: Path): Point
  {
    if prefix == [] then Origin
    else if prefix[|prefix| - 1].MoveTo? then prefix[|prefix| - 1].p
    else SubpathStart(prefix[..|prefix| - 1])
  }

  /** The pen position after drawing a prefix: the end point of its last
      element, or the subpath start when that element closes the subpath. */
  function CurrentPoint(prefix: Path): Point
  {
    if prefix == [] then Origin
    else if prefix[|prefix| - 1].ClosePath? then SubpathStart(prefix[..|prefix| - 1])
    else prefix[|prefix| - 1].p
  }
}
