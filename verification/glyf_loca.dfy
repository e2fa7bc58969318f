/** `GlyfLocaWork`: once every composite has its box, the binary glyphs are
    glued, in glyph order, into the glyf table, and the long-format loca
    table records where each glyph starts. */
module GlyfLoca {
  import opened Wrappers
  import opened FontTypes
  import opened Errors
  import opened Composites
  import opened CompositeBoxes

  /** Offsets in a long loca table are u32. */
  const U32Modulus: nat := 0x1_0000_0000

  /** `Glyph::to_bytes`: the binary encoding of one glyph, outside this model. */
  type Encoder = Glyph -> seq<byte>

  /** The records laid end to end. */
  function Flatten(records: seq<seq<byte>>): seq<byte>
  {
    if records == [] then []
    else
      var init := records[..|records| - 1];
      Flatten(init) + records[|records| - 1]
  }

  /** Flattening one more record appends it. */
  lemma FlattenStep(records: seq<seq<byte>>, i: nat)
    requires i < |records|
    ensures Flatten(records[..i + 1]) == Flatten(records[..i]) + records[i]
  {
    assert records[..i + 1][..i] == records[..i];
  }

  /** Where record `i` begins in the flattened table, as u32 arithmetic
      records it. */
  function StartOffset(records: seq<seq<byte>>, i: nat): nat
    requires i <= |records|
  {
    |Flatten(records[..i])| % U32Modulus
  }

  /** The glue loop: `loca` starts at `[0]` and each glyph pushes the previous
      offset plus its byte length, wrapping like release-mode u32 addition. */
  method Assemble(records: seq<seq<byte>>) returns (glyf: seq<byte>, loca: seq<nat>)
    ensures glyf == Flatten(records)
    ensures |loca| == |records| + 1 && loca[0] == 0
    ensures forall i :: 0 <= i < |loca| ==> loca[i] < U32Modulus
    ensures forall i :: 0 <= i < |loca| ==> i <= |records| && loca[i] == StartOffset(records, i)
  {
    glyf := [];
    loca := [0];
    var i := 0;
    while i < |records|
      invariant 0 <= i <= |records|
      invariant glyf == Flatten(records[..i])
      invariant |loca| == i + 1 && loca[0] == 0
      invariant forall k :: 0 <= k <= i ==> loca[k] == StartOffset(records, k)
      invariant forall k :: 0 <= k < |loca| ==> loca[k] < U32Modulus
    {
      var bytes := records[i];
      FlattenStep(records, i);
      var next := (loca[|loca| - 1] + |bytes| % U32Modulus) % U32Modulus;
      WrappingAdd(|glyf|, |bytes|);
      assert next == StartOffset(records, i + 1);
      loca := loca + [next];
      glyf := glyf + bytes;
      i := i + 1;
    }
    assert records[..|records|] == records;
  }

  lemma {:induction false} FlattenPrefix(records: seq<seq<byte>>, i: nat, j: nat)
    requires i <= j <= |records|
    ensures |Flatten(records[..i])| <= |Flatten(records[..j])|
    ensures Flatten(records[..j])[..|Flatten(records[..i])|] == Flatten(records[..i])
    decreases j - i
  {
    if i < j {
      FlattenPrefix(records, i, j - 1);
      FlattenStep(records, j - 1);
    }
  }

  /** While the table stays below 4 GiB the offsets are exact and grow
      monotonically, so the loca entries `i` and `i + 1` that `Assemble`
      records cut record `i` back out of glyf. */
  lemma RecordBetweenOffsets(records: seq<seq<byte>>, i: nat)
    requires |Flatten(records)| < U32Modulus
    requires i < |records|
    ensures StartOffset(records, i) <= StartOffset(records, i + 1) <= |Flatten(records)|
    ensures Flatten(records)[StartOffset(records, i)..StartOffset(records, i + 1)] == records[i]
  {
    var glyf := Flatten(records);
    var before := Flatten(records[..i]);
    var upTo := Flatten(records[..i + 1]);
    FlattenPrefix(records, i + 1, |records|);
    assert records[..|records|] == records;
    assert |upTo| <= |glyf| && glyf[..|upTo|] == upTo;
    FlattenStep(records, i);
    assert upTo == before + records[i];
    SmallMod(|before|);
    SmallMod(|upTo|);
    assert glyf[|before|..|upTo|] == upTo[|before|..];
  }

  /** Adding a length truncated to u32 to an offset, wrapping, is the
      offset of the untruncated sum. */
  lemma WrappingAdd(x: nat, n: nat)
    ensures (x % U32Modulus + n % U32Modulus) % U32Modulus == (x + n) % U32Modulus
  {
    var qx, rx := x / U32Modulus, x % U32Modulus;
    var qn, rn := n / U32Modulus, n % U32Modulus;
    assert x + n == (qx + qn) * U32Modulus + (rx + rn);
    if rx + rn >= U32Modulus {
      assert x + n == (qx + qn + 1) * U32Modulus + (rx + rn - U32Modulus);
    }
  }

  lemma SmallMod(x: nat)
    requires x < U32Modulus
    ensures x % U32Modulus == x
  {
  }

  /** Past 4 GiB a release build wraps: a 2^32-byte first glyph puts the
      second glyph's offset back at 0. */
  lemma LocaWrapsPastFourGiB(big: seq<byte>, tail: seq<byte>)
    requires |big| == U32Modulus
    ensures StartOffset([big, tail], 1) == 0
    ensures StartOffset([big, tail], 2) == |tail| % U32Modulus
  {
    var records := [big, tail];
    FlattenStep(records, 0);
    FlattenStep(records, 1);
    assert records[..0] == [];
    assert records[..2] == records;
  }

  /** Each glyph of the order, encoded from the table. */
  function EncodedGlyphs(order: GlyphOrder, table: map<GlyphName, Glyph>, encode: Encoder): (records: seq<seq<byte>>)
    requires forall i :: 0 <= i < |order| ==> order[i] in table
    ensures |records| == |order|
    ensures forall i :: 0 <= i < |order| ==> records[i] == encode(table[order[i]])
  {
    seq(|order|, i requires 0 <= i < |order| && order[i] in table => encode(table[order[i]]))
  }

  /** `GlyfLocaWork::exec`: boxes first, then each glyph of the order encoded
      from the patched table and glued. The table is the input with simple
      glyphs untouched and every composite given its computed box; glyf is
      its encoded glyphs end to end and loca holds each glyph's start offset.
      The work fails exactly when the box computation does: a composite
      without components, a component id outside the order, or a reference
      cycle. */
  method GlyfLocaExec(order: GlyphOrder, glyphs: map<GlyphName, Glyph>, place: Placer, encode: Encoder)
    returns (r: Result<(seq<byte>, seq<nat>), Panic>)
    requires IsTableOf(order, glyphs)
    ensures r.Ok? ==> |r.value.1| == |order| + 1 && r.value.1[0] == 0
    ensures r.Ok? ==> exists table: map<GlyphName, Glyph> ::
      && table.Keys == glyphs.Keys
      && (forall n :: n in glyphs && glyphs[n].Simple? ==> table[n] == glyphs[n])
      && (forall n :: n in glyphs && glyphs[n].Composite? ==>
            table[n].Composite? && table[n].composite.components == glyphs[n].composite.components)
      && BoxesConsistent(order, table, place)
      && (forall i :: 0 <= i < |order| ==> order[i] in table)
      && var records := EncodedGlyphs(order, table, encode);
         && r.value.0 == Flatten(records)
         && |r.value.1| == |records| + 1
         && forall i :: 0 <= i < |r.value.1| ==> r.value.1[i] == StartOffset(records, i)
    ensures r.Ok? ==> forall i :: 0 <= i < |r.value.1| ==> r.value.1[i] < U32Modulus
    ensures r.Ok? <==> ComponentsWellFormed(order, glyphs) && forall cyc :: !IsCycle(order, glyphs, cyc)
    ensures r.Err? ==> r.error.NoBboxProgress? || r.error.EmptyComposite? || r.error.GlyphIndexOutOfRange?
  {
    var boxed := ComputeCompositeBboxes(order, glyphs, place);
    if boxed.Err? {
      return Err(boxed.error);
    }
    var table := boxed.value;
    assert forall i :: 0 <= i < |order| ==> order[i] in table;
    var records := EncodedGlyphs(order, table, encode);
    var glyf, loca := Assemble(records);
    return Ok((glyf, loca));
  }
}
