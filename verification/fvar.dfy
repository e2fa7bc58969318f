/** `generate_fvar`: the OpenType 'fvar' table projected from the static
    metadata's variable axes. */
module FvarTable {
  import opened Wrappers
  import opened Errors

  /** The `flags` bit of an axis record that hides the axis from users. */
  const HiddenAxis: bv16 := 0x0001

  /** The largest count a u16 field holds. */
  const MaxU16: nat := 0xFFFF

  /** A four-byte axis tag, copied verbatim. */
  type Tag = seq<char>

  /** An axis of the static metadata; user-space coordinates are integer
      stand-ins for the source's floating-point values. */
  datatype Axis = Axis(name: string, tag: Tag, min: int, default: int, max: int, hidden: bool)

  /** The key of a name-table entry; only the name id matters here. */
  datatype NameKey = NameKey(nameId: nat, platformId: nat, encodingId: nat, langId: nat)

  /** The name table of the static metadata, in iteration order. */
  type Names = seq<(NameKey, string)>

  datatype AxisRecord = AxisRecord(axisTag: Tag, minValue: int, defaultValue: int, maxValue: int,
                                   flags: bv16, axisNameId: nat)

  datatype Fvar = Fvar(majorVersion: nat, minorVersion: nat, axes: seq<AxisRecord>, instanceCount: nat,
                       axisCount: nat)

  /** The name id the reverse map holds for `s`: collecting pairs into a map
      keeps the last pair for each string. */
  function ReverseLookup(names: Names, s: string): (r: Option<nat>)
    ensures r.None? <==> forall k :: 0 <= k < |names| ==> names[k].1 != s
    ensures r.Some? ==> exists k :: 0 <= k < |names| && names[k].1 == s && names[k].0.nameId == r.value
                                     && forall j :: k < j < |names| ==> names[j].1 != s
  {
    if names == [] then None
    else
      var last := names[|names| - 1];
      if last.1 == s then Some(last.0.nameId)
      else
        var r := ReverseLookup(names[..|names| - 1], s);
        assert forall k :: 0 <= k < |names| - 1 ==> names[..|names| - 1][k] == names[k];
        r
  }

  /** The record for one axis, or the panic of `reverse_names.get(..).unwrap()`. */
  function AxisRecordFor(names: Names, axis: Axis): (r: Result<AxisRecord, Panic>)
    ensures r.Err? <==> ReverseLookup(names, axis.name).None?
    ensures r.Err? ==> r.error == MissingAxisName(axis.name)
  {
    match ReverseLookup(names, axis.name)
    case None => Err(MissingAxisName(axis.name))
    case Some(id) =>
      var flags: bv16 := if axis.hidden then 0 | HiddenAxis else 0;
      Ok(AxisRecord(axis.tag, axis.min, axis.default, axis.max, flags, id))
  }

  /** The records in axis order, stopping at the first unnamed axis. */
  function AxisRecords(names: Names, axes: seq<Axis>): (r: Result<seq<AxisRecord>, Panic>)
    ensures r.Ok? ==> |r.value| == |axes|
    ensures r.Ok? ==> forall i :: 0 <= i < |axes| ==> AxisRecordFor(names, axes[i]) == Ok(r.value[i])
    ensures r.Err? ==> exists i :: 0 <= i < |axes| && AxisRecordFor(names, axes[i]) == Err(r.error)
                                   && forall j :: 0 <= j < i ==> AxisRecordFor(names, axes[j]).Ok?
  {
    if axes == [] then Ok([])
    else
      match AxisRecordFor(names, axes[0])
      case Err(e) => Err(e)
      case Ok(rec) =>
        match AxisRecords(names, axes[1..])
        case Err(e) =>
          var i :| 0 <= i < |axes[1..]| && AxisRecordFor(names, axes[1..][i]) == Err(e)
                   && forall j :: 0 <= j < i ==> AxisRecordFor(names, axes[1..][j]).Ok?;
          assert forall j :: 1 <= j < i + 1 ==> axes[j] == axes[1..][j - 1];
          Err(e)
        case Ok(rest) =>
          assert forall i :: 1 <= i < |axes| ==> axes[i] == axes[1..][i - 1];
          Ok([rec] + rest)
  }

  /** `generate_fvar` over the variable axes: nothing for a static font; a
      panic for an axis whose name has no entry, or for more axes than the
      u16 count holds; otherwise version 1.0, one record per axis and no
      named instances. */
  function GenerateFvar(names: Names, variableAxes: seq<Axis>): (r: Result<Option<Fvar>, Panic>)
    ensures r == Ok(None) <==> variableAxes == []
    ensures r.Err? ==> r.error.MissingAxisName? || r.error == TooManyAxes(|variableAxes|)
    ensures r.Err? && r.error.MissingAxisName? ==>
      exists i :: 0 <= i < |variableAxes| && r.error.axis == variableAxes[i].name
                  && ReverseLookup(names, variableAxes[i].name).None?
    ensures r.Err? && r.error.TooManyAxes? ==> |variableAxes| > MaxU16
    ensures ((forall i :: 0 <= i < |variableAxes| ==> ReverseLookup(names, variableAxes[i].name).Some?)
             && |variableAxes| <= MaxU16) ==> r.Ok?
    ensures r.Ok? && r.value.Some? ==>
      var f := r.value.value;
      && f.majorVersion == 1 && f.minorVersion == 0
      && |f.axes| == |variableAxes| == f.axisCount
      && f.instanceCount == 0
  {
    if variableAxes == [] then Ok(None)
    else
      match AxisRecords(names, variableAxes)
      case Err(e) => Err(e)
      case Ok(records) =>
        if |records| > MaxU16 then Err(TooManyAxes(|records|))
        else Ok(Some(Fvar(1, 0, records, 0, |records|)))
  }

  /** Each record of a generated table projects its axis: the tag and the
      three coordinates are copied, the hidden bit is set exactly for hidden
      axes and no other flag is set, and the name id belongs to the last
      name entry spelling the axis name. */
  lemma RecordsProjectAxes(names: Names, variableAxes: seq<Axis>, i: nat)
    requires GenerateFvar(names, variableAxes).Ok? && GenerateFvar(names, variableAxes).value.Some?
    requires i < |variableAxes|
    ensures var rec := GenerateFvar(names, variableAxes).value.value.axes[i];
            var axis := variableAxes[i];
            && rec.axisTag == axis.tag
            && rec.minValue == axis.min && rec.defaultValue == axis.default && rec.maxValue == axis.max
            && (rec.flags & HiddenAxis != 0 <==> axis.hidden)
            && rec.flags & !HiddenAxis == 0
            && exists k :: 0 <= k < |names| && names[k].1 == axis.name && names[k].0.nameId == rec.axisNameId
                           && forall j :: k < j < |names| ==> names[j].1 != axis.name
  {
    var records := AxisRecords(names, variableAxes).value;
    assert AxisRecordFor(names, variableAxes[i]) == Ok(records[i]);
  }

  /** The static metadata's variable axes: pinned axes (`min == max`) are
      not variable. */
  function VariableAxes(axes: seq<Axis>): (r: seq<Axis>)
    ensures forall a :: a in r <==> a in axes && a.min != a.max
    ensures |r| <= |axes|
  {
    if axes == [] then []
    else if axes[0].min != axes[0].max then [axes[0]] + VariableAxes(axes[1..])
    else VariableAxes(axes[1..])
  }

  function TestAxis(min: int, default: int, max: int): Axis
  {
    Axis("Test", "TEST", min, default, max, false)
  }

  const TestNames: Names := [(NameKey(256, 3, 1, 0x409), "Test")]

  /** The unit tests `no_fvar_for_no_axes` and `no_fvar_for_point_axes`. */
  lemma NoFvarWithoutVariableAxes()
    ensures GenerateFvar(TestNames, VariableAxes([])) == Ok(None)
    ensures GenerateFvar(TestNames, VariableAxes([TestAxis(400, 400, 400)])) == Ok(None)
  {
    assert VariableAxes([TestAxis(400, 400, 400)]) == [];
  }

  /** The unit test `fvar_includes_only_variable_axes`. */
  lemma FvarIncludesOnlyVariableAxes()
    ensures var r := GenerateFvar(TestNames, VariableAxes([TestAxis(400, 400, 700), TestAxis(400, 400, 400)]));
            && r.Ok? && r.value.Some?
            && |r.value.value.axes| == 1
            && r.value.value.axes[0].minValue == 400
            && r.value.value.axes[0].defaultValue == 400
            && r.value.value.axes[0].maxValue == 700
  {
    var axes := [TestAxis(400, 400, 700), TestAxis(400, 400, 400)];
    assert axes[1..] == [TestAxis(400, 400, 400)];
    assert VariableAxes(axes[1..]) == [];
    assert VariableAxes(axes) == [TestAxis(400, 400, 700)];
    RecordsProjectAxes(TestNames, [TestAxis(400, 400, 700)], 0);
  }
}
