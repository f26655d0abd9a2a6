/**
 * The pending block and fluid ticks of a region (`litemapy/ticks.py`). Both
 * are plain records of seven fields read from, and written to, a compound
 * tag under the field's own name. Neither conversion looks at the kind of
 * tag a field holds, so the fields are modelled as tags.
 */
module Ticks {
  import opened Wrappers
  import opened Nbt

  /** `nbt[key]` on a compound without `key` raises KeyError. */
  datatype TickError = KeyError(key: string)

  /** The keys of a pending tick other than the one naming the block or fluid, in the order they are read. */
  const TIMING_KEYS: seq<string> := ["priority", "sub_tick", "time", "x", "y", "z"]

  datatype PendingBlockTick = PendingBlockTick(block: Tag, priority: Tag, subTick: Tag, time: Tag, x: Tag, y: Tag, z: Tag)

  datatype PendingFluidTick = PendingFluidTick(fluid: Tag, priority: Tag, subTick: Tag, time: Tag, x: Tag, y: Tag, z: Tag)

  /** The first of `keys` that `c` lacks, if any. */
  function FirstMissing(c: Compound, keys: seq<string>): (r: Option<string>)
    ensures r.None? <==> forall k :: k in keys ==> k in c
    ensures r.Some? ==> r.value in keys && r.value !in c
    ensures r.Some? ==> exists i :: 0 <= i < |keys| && keys[i] == r.value && forall j :: 0 <= j < i ==> keys[j] in c
  {
    if |keys| == 0 then None
    else if keys[0] !in c then Some(keys[0])
    else
      var r := FirstMissing(c, keys[1..]);
      assert forall k :: k in keys ==> k == keys[0] || k in keys[1..];
      if r.Some? then
        var i :| 0 <= i < |keys[1..]| && keys[1..][i] == r.value && forall j :: 0 <= j < i ==> keys[1..][j] in c;
        assert keys[i + 1] == r.value && forall j :: 0 <= j < i + 1 ==> keys[j] in c;
        r
      else r
  }

  /** `PendingBlockTick.from_nbt(nbt)`: each field from its own key; KeyError names the first key missing. */
  function BlockTickFromNbt(c: Compound): (r: Result<PendingBlockTick, TickError>)
    ensures r.Success? <==> forall k :: k in ["block"] + TIMING_KEYS ==> k in c
    ensures r.Failure? ==> r.error.key in ["block"] + TIMING_KEYS && r.error.key !in c
    ensures r.Failure? ==> "block" !in c ==> r.error.key == "block"
    ensures r.Success? ==> r.value.block == c["block"] && r.value.priority == c["priority"] && r.value.subTick == c["sub_tick"]
    ensures r.Success? ==> r.value.time == c["time"] && r.value.x == c["x"] && r.value.y == c["y"] && r.value.z == c["z"]
  {
    match FirstMissing(c, ["block"] + TIMING_KEYS)
    case Some(k) => Failure(KeyError(k))
    case None => Success(PendingBlockTick(c["block"], c["priority"], c["sub_tick"], c["time"], c["x"], c["y"], c["z"]))
  }

  /** `PendingBlockTick.to_nbt()`: a compound with exactly the seven keys, each holding its field. */
  function BlockTickToNbt(t: PendingBlockTick): (c: Compound)
    ensures c.Keys == {"block", "priority", "sub_tick", "time", "x", "y", "z"}
  {
    map["block" := t.block, "priority" := t.priority, "sub_tick" := t.subTick, "time" := t.time,
        "x" := t.x, "y" := t.y, "z" := t.z]
  }

  /** `PendingFluidTick.from_nbt(nbt)`: as for block ticks, with `fluid` in place of `block`. */
  function FluidTickFromNbt(c: Compound): (r: Result<PendingFluidTick, TickError>)
    ensures r.Success? <==> forall k :: k in ["fluid"] + TIMING_KEYS ==> k in c
    ensures r.Failure? ==> r.error.key in ["fluid"] + TIMING_KEYS && r.error.key !in c
    ensures r.Failure? ==> "fluid" !in c ==> r.error.key == "fluid"
    ensures r.Success? ==> r.value.fluid == c["fluid"] && r.value.priority == c["priority"] && r.value.subTick == c["sub_tick"]
    ensures r.Success? ==> r.value.time == c["time"] && r.value.x == c["x"] && r.value.y == c["y"] && r.value.z == c["z"]
  {
    match FirstMissing(c, ["fluid"] + TIMING_KEYS)
    case Some(k) => Failure(KeyError(k))
    case None => Success(PendingFluidTick(c["fluid"], c["priority"], c["sub_tick"], c["time"], c["x"], c["y"], c["z"]))
  }

  /** `PendingFluidTick.to_nbt()`. */
  function FluidTickToNbt(t: PendingFluidTick): (c: Compound)
    ensures c.Keys == {"fluid", "priority", "sub_tick", "time", "x", "y", "z"}
  {
    map["fluid" := t.fluid, "priority" := t.priority, "sub_tick" := t.subTick, "time" := t.time,
        "x" := t.x, "y" := t.y, "z" := t.z]
  }

  /** Writing a block tick and reading it back gives the same tick. */
  lemma BlockTickRoundTrip(t: PendingBlockTick)
    ensures BlockTickFromNbt(BlockTickToNbt(t)) == Success(t)
  {
    assert FirstMissing(BlockTickToNbt(t), ["block"] + TIMING_KEYS).None?;
  }

  /** Reading a compound and writing the tick back keeps exactly the seven tick keys. */
  lemma BlockTickKeepsFields(c: Compound)
    requires BlockTickFromNbt(c).Success?
    ensures BlockTickToNbt(BlockTickFromNbt(c).value) == map k | k in c && k in ["block"] + TIMING_KEYS :: c[k]
  {
  }

  lemma FluidTickRoundTrip(t: PendingFluidTick)
    ensures FluidTickFromNbt(FluidTickToNbt(t)) == Success(t)
  {
    assert FirstMissing(FluidTickToNbt(t), ["fluid"] + TIMING_KEYS).None?;
  }

  lemma FluidTickKeepsFields(c: Compound)
    requires FluidTickFromNbt(c).Success?
    ensures FluidTickToNbt(FluidTickFromNbt(c).value) == map k | k in c && k in ["fluid"] + TIMING_KEYS :: c[k]
  {
  }
}
