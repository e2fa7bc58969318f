/** Work identities: the backend's `WorkId`, and `AnyWorkId`, which puts
    frontend and backend work into one dependency graph. The frontend's own
    identifiers are a type parameter with an order of their own. */
module WorkIds {
  import opened Wrappers
  import opened FontTypes
  import opened Errors

  datatype WorkId = Features | Glyph(name: GlyphName) | GlyphMerge | FinalMerge

  datatype AnyWorkId<FeId> = Fe(fe: FeId) | Be(be: WorkId)

  /** The frontend's work identifier, which the backend only stores, compares
      and hands back; a stand-in keyed by a string. */
  datatype FeWorkId = FeWorkId(key: string)

  /** `impl From<FeWorkIdentifier> for AnyWorkId`. */
  function FromFe<FeId>(id: FeId): (r: AnyWorkId<FeId>)
    ensures r.Fe? && r.fe == id
  {
    Fe(id)
  }

  /** `impl From<WorkId> for AnyWorkId`. */
  function FromBe<FeId>(id: WorkId): (r: AnyWorkId<FeId>)
    ensures r.Be? && r.be == id
  {
    Be(id)
  }

  /** `unwrap_be`: the backend id inside, or a panic for a frontend id. */
  function UnwrapBe<FeId>(id: AnyWorkId<FeId>): (r: Result<WorkId, Panic>)
    ensures r.Ok? <==> id.Be?
    ensures r.Ok? ==> FromBe(r.value) == id
    ensures r.Err? ==> r.error == NotBackendId
  {
    match id
    case Fe(_) => Err(NotBackendId)
    case Be(b) => Ok(b)
  }

  /** `unwrap_fe`: the frontend id inside, or a panic for a backend id. */
  function UnwrapFe<FeId>(id: AnyWorkId<FeId>): (r: Result<FeId, Panic>)
    ensures r.Ok? <==> id.Fe?
    ensures r.Ok? ==> FromFe(r.value) == id
    ensures r.Err? ==> r.error == NotFrontendId
  {
    match id
    case Fe(f) => Ok(f)
    case Be(_) => Err(NotFrontendId)
  }

  /** Wrapping and unwrapping are inverse, and unwrapping the other stage fails. */
  lemma FromUnwrapRoundTrip<FeId>(fe: FeId, be: WorkId)
    ensures UnwrapBe(FromBe<FeId>(be)) == Ok(be)
    ensures UnwrapFe(FromFe(fe)) == Ok(fe)
    ensures UnwrapBe(FromFe(fe)).Err?
    ensures UnwrapFe(FromBe<FeId>(be)).Err?
  {
  }

  /** `Ord` on strings: lexicographic by character. */
  predicate StrLe(a: string, b: string)
  {
    if a == [] then true
    else if b == [] then false
    else if a[0] != b[0] then a[0] < b[0]
    else StrLe(a[1..], b[1..])
  }

  lemma {:induction false} StrLeTotal(a: string, b: string)
    ensures StrLe(a, b) || StrLe(b, a)
  {
    if a != [] && b != [] && a[0] == b[0] {
      StrLeTotal(a[1..], b[1..]);
    }
  }

  lemma {:induction false} StrLeAntisymmetric(a: string, b: string)
    requires StrLe(a, b) && StrLe(b, a)
    ensures a == b
  {
    if a != [] && b != [] {
      StrLeAntisymmetric(a[1..], b[1..]);
      assert a == [a[0]] + a[1..] && b == [b[0]] + b[1..];
    }
  }

  lemma {:induction false} StrLeTransitive(a: string, b: string, c: string)
    requires StrLe(a, b) && StrLe(b, c)
    ensures StrLe(a, c)
  {
    if a != [] && b != [] && c != [] && a[0] == b[0] && b[0] == c[0] {
      StrLeTransitive(a[1..], b[1..], c[1..]);
    }
  }

  /** The position of a variant in declaration order, which the derived
      order compares first. */
  function VariantIndex(id: WorkId): nat
  {
    match id
    case Features => 0
    case Glyph(_) => 1
    case GlyphMerge => 2
    case FinalMerge => 3
  }

  /** The derived order on `WorkId`: by variant, then glyphs by name. */
  predicate WorkIdLe(a: WorkId, b: WorkId)
  {
    if VariantIndex(a) != VariantIndex(b) then VariantIndex(a) < VariantIndex(b)
    else a.Glyph? ==> StrLe(a.name, b.name)
  }

  /** A total order on `T`. */
  ghost predicate TotalOrder<T(!new)>(le: (T, T) -> bool)
  {
    && (forall a, b :: le(a, b) || le(b, a))
    && (forall a, b :: le(a, b) && le(b, a) ==> a == b)
    && (forall a, b, c :: le(a, b) && le(b, c) ==> le(a, c))
  }

  /** `Features < Glyph(_) < GlyphMerge < FinalMerge`, glyphs by name. */
  lemma WorkIdOrderIsVariantThenName(n: GlyphName, m: GlyphName)
    ensures WorkIdLe(Features, Glyph(n)) && !WorkIdLe(Glyph(n), Features)
    ensures WorkIdLe(Glyph(n), GlyphMerge) && !WorkIdLe(GlyphMerge, Glyph(n))
    ensures WorkIdLe(GlyphMerge, FinalMerge) && !WorkIdLe(FinalMerge, GlyphMerge)
    ensures WorkIdLe(Glyph(n), Glyph(m)) <==> StrLe(n, m)
  {
  }

  lemma WorkIdLeIsTotalOrder()
    ensures TotalOrder(WorkIdLe)
  {
    forall a, b
      ensures WorkIdLe(a, b) || WorkIdLe(b, a)
    {
      if a.Glyph? && b.Glyph? {
        StrLeTotal(a.name, b.name);
      }
    }
    forall a, b | WorkIdLe(a, b) && WorkIdLe(b, a)
      ensures a == b
    {
      if a.Glyph? && b.Glyph? {
        StrLeAntisymmetric(a.name, b.name);
      }
    }
    forall a, b, c | WorkIdLe(a, b) && WorkIdLe(b, c)
      ensures WorkIdLe(a, c)
    {
      if a.Glyph? && b.Glyph? && c.Glyph? {
        StrLeTransitive(a.name, b.name, c.name);
      }
    }
  }

  /** The derived order on `AnyWorkId`: every frontend id before every
      backend id, each stage ordered by its own order. */
  function AnyLe<FeId(!new)>(feLe: (FeId, FeId) -> bool): (le: (AnyWorkId<FeId>, AnyWorkId<FeId>) -> bool)
    ensures forall f, g :: le(Fe(f), Fe(g)) == feLe(f, g)
    ensures forall a, b :: le(Be(a), Be(b)) == WorkIdLe(a, b)
    ensures forall f, b :: le(Fe(f), Be(b)) && !le(Be(b), Fe(f))
  {
    (x: AnyWorkId<FeId>, y: AnyWorkId<FeId>) =>
      match (x, y)
      case (Fe(f), Fe(g)) => feLe(f, g)
      case (Fe(_), Be(_)) => true
      case (Be(_), Fe(_)) => false
      case (Be(a), Be(b)) => WorkIdLe(a, b)
  }

  /** Whatever total order the frontend ids carry, `AnyWorkId`'s is total. */
  lemma AnyLeIsTotalOrder<FeId(!new)>(feLe: (FeId, FeId) -> bool)
    requires TotalOrder(feLe)
    ensures TotalOrder(AnyLe(feLe))
  {
    WorkIdLeIsTotalOrder();
    var le := AnyLe(feLe);
    forall a, b, c | le(a, b) && le(b, c)
      ensures le(a, c)
    {
      if a.Be? && b.Be? && c.Be? {
        assert WorkIdLe(a.be, b.be) && WorkIdLe(b.be, c.be);
      }
    }
  }
}
