/** `transform_blocks`: the block report (block id to block definition)
    reduced to a table from block id to the protocol id of the block's
    default state. */
module BlockTransform {
  import opened Wrappers
  import opened Seqs
  import opened JsonValues

  datatype BlocksError =
    | Unreadable          // the report could not be read or is not JSON
    | NotAnObject         // the report is JSON but not an object of blocks
    | MalformedBlockState // a states array without a usable default state

  /** What one block contributes to the table. */
  datatype BlockOutcome = Omitted | ProtocolId(id: int) | Malformed

  /** `properties.get("states").and_then(Value::as_array)`. */
  function States(block: Json): Option<seq<Json>> {
    match Get(block, "states")
    case None => None
    case Some(s) => AsArray(s)
  }

  /** A state is the default when its `"default"` member is boolean `true`;
      a missing or non-boolean `"default"` counts as `false`. */
  predicate IsDefault(state: Json) {
    match Get(state, "default")
    case None => false
    case Some(d) => AsBool(d) == Some(true)
  }

  /** `state.get("id").and_then(Value::as_i64)`. */
  function StateId(state: Json): Option<int> {
    match Get(state, "id")
    case None => None
    case Some(i) => AsI64(i)
  }

  /** State `i` is the first default state. */
  predicate FirstDefault(states: seq<Json>, i: int) {
    && 0 <= i < |states|
    && IsDefault(states[i])
    && forall j :: 0 <= j < i ==> !IsDefault(states[j])
  }

  /** Only a boolean `true` makes a state the default: the string `"true"`,
      the number `1`, or no `"default"` member at all do not. */
  lemma DefaultMeansBooleanTrue(state: Json)
    ensures IsDefault(state) <==> state.Obj? && "default" in state.fields
                                  && state.fields["default"] == Bool(true)
  {
  }

  /** One block: skipped without a states array; otherwise the id of its
      first default state, which must exist and be a 64-bit integer. */
  function DefaultStateId(block: Json): (o: BlockOutcome)
    ensures o.Omitted? <==> States(block).None?
    ensures o.Malformed? <==> (&& States(block).Some?
                               && forall i :: FirstDefault(States(block).value, i) ==> StateId(States(block).value[i]).None?)
    ensures o.ProtocolId? ==> exists i :: FirstDefault(States(block).value, i)
                                          && StateId(States(block).value[i]) == Some(o.id)
  {
    match States(block)
    case None => Omitted
    case Some(states) =>
      match FirstIndex(states, IsDefault)
      case None => Malformed
      case Some(i) =>
        assert FirstDefault(states, i);
        assert forall k :: FirstDefault(states, k) ==> k == i;
        match StateId(states[i])
        case None => Malformed
        case Some(id) => ProtocolId(id)
  }

  /** What every block of the report contributes. */
  function Outcomes(blocks: map<string, Json>): map<string, BlockOutcome> {
    map k | k in blocks :: DefaultStateId(blocks[k])
  }

  /** All or nothing: the protocol ids of the blocks that have one, unless
      some block is malformed. */
  function TableOf(outcomes: map<string, BlockOutcome>): (r: Result<map<string, int>, BlocksError>)
    ensures r.Ok? <==> forall k :: k in outcomes ==> !outcomes[k].Malformed?
    ensures r.Err? ==> r.error == MalformedBlockState
    ensures r.Ok? ==> r.value.Keys == set k | k in outcomes && outcomes[k].ProtocolId?
    ensures r.Ok? ==> forall k :: k in r.value ==> outcomes[k] == ProtocolId(r.value[k])
  {
    if exists k :: k in outcomes && outcomes[k].Malformed? then Err(MalformedBlockState)
    else Ok(map k | k in outcomes && outcomes[k].ProtocolId? :: outcomes[k].id)
  }

  /** The table for a report that is an object of blocks. */
  function BlockTable(blocks: map<string, Json>): (r: Result<map<string, int>, BlocksError>)
    ensures r.Ok? <==> forall k :: k in blocks ==> !DefaultStateId(blocks[k]).Malformed?
    ensures r.Err? ==> r.error == MalformedBlockState
    ensures r.Ok? ==> r.value.Keys == set k | k in blocks && States(blocks[k]).Some?
    ensures r.Ok? ==> forall k :: k in r.value ==> DefaultStateId(blocks[k]) == ProtocolId(r.value[k])
  {
    var outcomes := Outcomes(blocks);
    var r := TableOf(outcomes);
    assert forall k :: k in blocks ==> outcomes[k] == DefaultStateId(blocks[k]);
    assert r.Ok? ==> r.value.Keys == set k | k in blocks && States(blocks[k]).Some? by {
      if r.Ok? {
        forall k | k in blocks
          ensures k in r.value <==> States(blocks[k]).Some?
        {
          assert outcomes[k] == DefaultStateId(blocks[k]);
        }
      }
    }
    r
  }

  /** `transform_blocks`: read the report, then build the table from its
      blocks. */
  method TransformBlocks(report: Option<Json>) returns (r: Result<map<string, int>, BlocksError>)
    ensures report.None? ==> r == Err(Unreadable)
    ensures report.Some? && !report.value.Obj? ==> r == Err(NotAnObject)
    ensures report.Some? && report.value.Obj? ==> r == BlockTable(report.value.fields)
  {
    if report.None? {
      return Err(Unreadable);
    }
    if !report.value.Obj? {
      return Err(NotAnObject);
    }
    r := CollectTable(Outcomes(report.value.fields));
  }

  /** The loop of `transform_blocks`: visit the blocks in the unspecified
      order of a `HashMap`, inserting each protocol id and giving up at the
      first malformed block. Whatever the order, the result is the same. */
  method CollectTable(outcomes: map<string, BlockOutcome>) returns (r: Result<map<string, int>, BlocksError>)
    ensures r == TableOf(outcomes)
  {
    var remaining := outcomes.Keys;
    var table: map<string, int> := map[];
    while remaining != {}
      invariant remaining <= outcomes.Keys
      invariant forall k :: k in outcomes && k !in remaining ==> !outcomes[k].Malformed?
      invariant table.Keys == set k | k in outcomes && k !in remaining && outcomes[k].ProtocolId?
      invariant forall k :: k in table ==> outcomes[k] == ProtocolId(table[k])
      decreases remaining
    {
      var blockId :| blockId in remaining;
      match outcomes[blockId] {
        case Omitted =>
        case Malformed =>
          return Err(MalformedBlockState);
        case ProtocolId(id) =>
          table := table[blockId := id];
      }
      remaining := remaining - {blockId};
    }
    var expected := TableOf(outcomes);
    assert expected.Ok?;
    assert table.Keys == expected.value.Keys;
    assert forall k :: k in table ==> table[k] == expected.value[k];
    assert table == expected.value;
    return Ok(table);
  }

  /** `{"minecraft:stone": {"states": [{"id": 1, "default": false},
      {"id": 2, "default": true}]}}` gives `{"minecraft:stone": 2}`. */
  lemma StoneExample()
    ensures
      var off := Obj(map["id" := Int(1), "default" := Bool(false)]);
      var on := Obj(map["id" := Int(2), "default" := Bool(true)]);
      var stone := Obj(map["states" := Arr([off, on])]);
      BlockTable(map["minecraft:stone" := stone]) == Ok(map["minecraft:stone" := 2])
  {
    var off := Obj(map["id" := Int(1), "default" := Bool(false)]);
    var on := Obj(map["id" := Int(2), "default" := Bool(true)]);
    var stone := Obj(map["states" := Arr([off, on])]);
    assert !IsDefault(off) && IsDefault(on);
    assert States(stone) == Some([off, on]);
    assert FirstDefault([off, on], 1);
    assert StateId(on) == Some(2);
    SingleBlockTable("minecraft:stone", stone, 2);
  }

  /** A report of one block that has a protocol id maps that block to it. */
  lemma SingleBlockTable(blockId: string, block: Json, id: int)
    requires DefaultStateId(block) == ProtocolId(id)
    ensures BlockTable(map[blockId := block]) == Ok(map[blockId := id])
  {
    var blocks := map[blockId := block];
    var r := BlockTable(blocks);
    assert r.Ok?;
    assert r.value.Keys == {blockId};
    assert r.value == map[blockId := id];
  }

  /** A block whose states array has no default state fails the whole
      transform, whatever the other blocks hold. */
  lemma NoDefaultFails(blocks: map<string, Json>, blockId: string)
    requires blockId in blocks && States(blocks[blockId]).Some?
    requires forall i :: 0 <= i < |States(blocks[blockId]).value| ==> !IsDefault(States(blocks[blockId]).value[i])
    ensures BlockTable(blocks) == Err(MalformedBlockState)
  {
  }

  /** An integer `id` outside the signed 64-bit range is no id: a block whose
      first default state carries one is malformed. */
  lemma OutOfRangeIdMalformed(block: Json, i: nat, n: int)
    requires States(block).Some? && FirstDefault(States(block).value, i)
    requires Get(States(block).value[i], "id") == Some(Int(n))
    requires n < I64_MIN || n > I64_MAX
    ensures DefaultStateId(block) == Malformed
  {
    assert StateId(States(block).value[i]).None?;
  }
}
