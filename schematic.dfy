/**
 * Schematics and their regions (`litemapy.schematic`): the signed bounding
 * box of a region, its voxels stored as indices into a palette of block
 * states, the tile entities and other lists it owns, and the extent of a
 * schematic over all its regions.
 */
module Schematic {
  import opened Wrappers
  import opened Nbt
  import opened Minecraft
  import opened Ticks
  import opened BitMath
  import Storage

  /** The block every voxel of a new region holds, always at palette index 0. */
  const AIR: BlockState := BlockState("minecraft:air", map[])

  datatype RegionError = CoordinatesOutOfRange(x: int, y: int, z: int)

  // ===========================================================================
  // Bounding boxes

  function Abs(n: int): (r: nat)
    ensures r == n || r == -n
  {
    if n < 0 then -n else n
  }

  /** `min_x()` for a size: `min(0, size + 1)`. */
  function MinCoord(size: int): (r: int)
    ensures size > 0 ==> r == 0
    ensures size < 0 ==> r == size + 1
  {
    if size + 1 < 0 then size + 1 else 0
  }

  /** `max_x()` for a size: `max(0, size - 1)`. */
  function MaxCoord(size: int): (r: int)
    ensures size > 0 ==> r == size - 1
    ensures size < 0 ==> r == 0
  {
    if size - 1 > 0 then size - 1 else 0
  }

  /** A non-empty axis covers exactly `|size|` coordinates, from its minimum to its maximum. */
  lemma AxisSpan(size: int)
    requires size != 0
    ensures MaxCoord(size) - MinCoord(size) + 1 == Abs(size)
    ensures MinCoord(size) <= 0 <= MaxCoord(size)
  {
  }

  /** The number of voxels of a region of the given signed size. */
  function Volume(width: int, height: int, length: int): nat
  {
    Abs(width) * (Abs(length) * Abs(height))
  }

  /** Whether `(x, y, z)` is a coordinate of a region of the given size. */
  predicate InBox(width: int, height: int, length: int, x: int, y: int, z: int)
  {
    && MinCoord(width) <= x < MinCoord(width) + Abs(width)
    && MinCoord(height) <= y < MinCoord(height) + Abs(height)
    && MinCoord(length) <= z < MinCoord(length) + Abs(length)
  }

  /** The place of voxel `(x, y, z)` in the flat voxel sequence: x varies fastest, then z, then y. */
  function FlatIndex(width: int, height: int, length: int, x: int, y: int, z: int): int
  {
    (x - MinCoord(width)) + Abs(width) * ((z - MinCoord(length)) + Abs(length) * (y - MinCoord(height)))
  }

  /** Every coordinate of the box has a place in the flat sequence. */
  lemma FlatIndexInRange(width: int, height: int, length: int, x: int, y: int, z: int)
    requires InBox(width, height, length, x, y, z)
    ensures 0 <= FlatIndex(width, height, length, x, y, z) < Volume(width, height, length)
  {
    var a, b, c := x - MinCoord(width), y - MinCoord(height), z - MinCoord(length);
    var w, h, l := Abs(width), Abs(height), Abs(length);
    BelowProduct(c, l, b, h, l * h);
    BelowProduct(a, w, c + l * b, l * h, w * (l * h));
  }

  /** The coordinates of the voxel at place `i`: the inverse of `FlatIndex`. */
  function Coordinates(width: int, height: int, length: int, i: nat): (int, int, int)
    requires width != 0 && length != 0
  {
    var w, l := Abs(width), Abs(length);
    (MinCoord(width) + i % w, MinCoord(height) + (i / w) / l, MinCoord(length) + (i / w) % l)
  }

  /** Distinct coordinates have distinct places, and `Coordinates` reads a place back. */
  lemma FlatIndexInverse(width: int, height: int, length: int, x: int, y: int, z: int)
    requires InBox(width, height, length, x, y, z)
    ensures width != 0 && length != 0 && 0 <= FlatIndex(width, height, length, x, y, z)
    ensures Coordinates(width, height, length, FlatIndex(width, height, length, x, y, z)) == (x, y, z)
  {
    FlatIndexInRange(width, height, length, x, y, z);
    var a, b, c := x - MinCoord(width), y - MinCoord(height), z - MinCoord(length);
    var w, l := Abs(width), Abs(length);
    var q := c + l * b;
    MulNonneg(l, b);
    MulNonneg(w, q);
    DivModUnique(a + w * q, w, q, a);
    DivModUnique(q, l, b, c);
  }

  /** Every place of the flat sequence belongs to a coordinate of the box. */
  lemma CoordinatesInBox(width: int, height: int, length: int, i: nat)
    requires i < Volume(width, height, length)
    ensures width != 0 && length != 0
    ensures var (x, y, z) := Coordinates(width, height, length, i);
            InBox(width, height, length, x, y, z) && FlatIndex(width, height, length, x, y, z) == i
  {
    var w, h, l := Abs(width), Abs(height), Abs(length);
    PositiveFactors(w, l * h);
    PositiveFactors(l, h);
    var q := i / w;
    DivMod(i, w);
    DivBelow(i, w, l * h, w * (l * h));
    DivBelow(q, l, h, l * h);
    DivMod(q, l);
  }

  lemma PositiveFactors(a: nat, b: nat)
    requires a * b > 0
    ensures a > 0 && b > 0
  {
  }

  // ===========================================================================
  // Palettes

  /** The block each voxel holds: its palette entry (indices past the palette read as air). */
  function Resolve(palette: seq<BlockState>, vs: seq<nat>): (blocks: seq<BlockState>)
    ensures |blocks| == |vs|
  {
    seq(|vs|, i requires 0 <= i < |vs| => if vs[i] < |palette| then palette[vs[i]] else AIR)
  }

  /** Every voxel indexes the palette, whose entry 0 is air. */
  ghost predicate Indexed(palette: seq<BlockState>, vs: seq<nat>)
  {
    |palette| >= 1 && palette[0] == AIR && forall k :: 0 <= k < |vs| ==> vs[k] < |palette|
  }

  /** The region palette invariant: indexed, without duplicates, and every entry but air in use. */
  ghost predicate PaletteOk(palette: seq<BlockState>, vs: seq<nat>)
  {
    && Indexed(palette, vs)
    && Storage.Distinct(palette)
    && forall p :: 1 <= p < |palette| ==> p in vs
  }

  /** Under the invariant, every palette entry other than air is a block some voxel holds. */
  lemma PaletteEntriesUsed(palette: seq<BlockState>, vs: seq<nat>, p: nat)
    requires PaletteOk(palette, vs) && 1 <= p < |palette|
    ensures palette[p] in Resolve(palette, vs)
  {
    assert p in vs;
    var k :| 0 <= k < |vs| && vs[k] == p;
    assert Resolve(palette, vs)[k] == palette[p];
  }

  /** The first place of `s` in `palette` (Python's `list.index`), if any. */
  function IndexOf(palette: seq<BlockState>, s: BlockState): (r: Option<nat>)
    ensures r.Some? ==> r.value < |palette| && palette[r.value] == s
    ensures r.None? ==> s !in palette
  {
    if |palette| == 0 then None
    else if palette[0] == s then Some(0)
    else match IndexOf(palette[1..], s)
      case None => None
      case Some(i) => Some(i + 1)
  }

  /** `f` applied to every block. */
  function MapBlocks(f: BlockState -> BlockState, blocks: seq<BlockState>): (r: seq<BlockState>)
    ensures |r| == |blocks|
    ensures forall i :: 0 <= i < |blocks| ==> r[i] == f(blocks[i])
  {
    seq(|blocks|, i requires 0 <= i < |blocks| => f(blocks[i]))
  }

  /** `replace(a, b)` as a filter. */
  function Replacing(a: BlockState, b: BlockState): BlockState -> BlockState
  {
    s => if s == a then b else s
  }

  // ===========================================================================
  // Regions

  datatype Axis = X | Y | Z

  /** The first tile entity of `ts` whose position is `p`. */
  function FirstAt(ts: seq<TileEntity>, p: (int, int, int)): (r: Option<nat>)
    reads ts
    ensures r.Some? ==> r.value < |ts| && ts[r.value].Position() == p
    ensures r.Some? ==> forall j :: 0 <= j < r.value ==> ts[j].Position() != p
    ensures r.None? ==> forall j :: 0 <= j < |ts| ==> ts[j].Position() != p
    decreases |ts|
  {
    if |ts| == 0 then None
    else if ts[0].Position() == p then Some(0)
    else match FirstAt(ts[1..], p)
      case None => None
      case Some(i) => Some(i + 1)
  }

  /**
   * A region: a box of voxels at `(x, y, z)` in the schematic, with signed
   * sizes (a negative size extends the box towards negative coordinates).
   * Each voxel is an index into `palette`.
   */
  class Region {
    const x: int
    const y: int
    const z: int
    const width: int
    const height: int
    const length: int
    var palette: seq<BlockState>
    const voxels: array<nat>
    var entities: seq<Entity>
    var tileEntities: seq<TileEntity>
    var blockTicks: seq<PendingBlockTick>
    var fluidTicks: seq<PendingFluidTick>

    ghost predicate Valid()
      reads this, voxels
    {
      voxels.Length == Volume(width, height, length) && PaletteOk(palette, voxels[..])
    }

    /** The block held by each voxel, in `FlatIndex` order. */
    function Blocks(): (blocks: seq<BlockState>)
      reads this, voxels
      ensures |blocks| == voxels.Length
    {
      Resolve(palette, voxels[..])
    }

    function Size(a: Axis): int
    {
      match a
      case X => width
      case Y => height
      case Z => length
    }

    function Origin(a: Axis): int
    {
      match a
      case X => x
      case Y => y
      case Z => z
    }

    /** `min_x()`, `min_y()`, `min_z()`: the lowest local coordinate. */
    function MinLocal(a: Axis): int
    {
      MinCoord(Size(a))
    }

    /** `max_x()`, `max_y()`, `max_z()`: the highest local coordinate. */
    function MaxLocal(a: Axis): int
    {
      MaxCoord(Size(a))
    }

    /** `min_schem_x()` and its siblings: the lowest coordinate in the schematic. */
    function MinSchem(a: Axis): int
    {
      Origin(a) + MinLocal(a)
    }

    /** `max_schem_x()` and its siblings: the highest coordinate in the schematic. */
    function MaxSchem(a: Axis): int
    {
      Origin(a) + MaxLocal(a)
    }

    /**
     * On a non-empty axis the schematic coordinates run from `MinSchem` to
     * `MaxSchem`, `|size|` of them, and contain the origin; the local ones
     * accepted by `Get` and `Set` are exactly `MinLocal..MaxLocal`.
     */
    lemma BoxBounds(a: Axis, c: int)
      requires Size(a) != 0
      ensures MaxSchem(a) - MinSchem(a) + 1 == Abs(Size(a))
      ensures MinSchem(a) <= Origin(a) <= MaxSchem(a)
      ensures Size(a) > 0 ==> MinSchem(a) == Origin(a) && MaxSchem(a) == Origin(a) + Size(a) - 1
      ensures Size(a) < 0 ==> MinSchem(a) == Origin(a) + Size(a) + 1 && MaxSchem(a) == Origin(a)
      ensures (MinCoord(Size(a)) <= c < MinCoord(Size(a)) + Abs(Size(a))) <==> MinLocal(a) <= c <= MaxLocal(a)
    {
      AxisSpan(Size(a));
    }

    /** `Region(x, y, z, width, height, length)`: every voxel air, every list empty. */
    constructor (x: int, y: int, z: int, width: int, height: int, length: int)
      ensures Valid()
      ensures this.x == x && this.y == y && this.z == z
      ensures this.width == width && this.height == height && this.length == length
      ensures Blocks() == seq(Volume(width, height, length), _ => AIR)
      ensures palette == [AIR]
      ensures entities == [] && tileEntities == [] && blockTicks == [] && fluidTicks == []
      ensures fresh(voxels)
    {
      this.x, this.y, this.z := x, y, z;
      this.width, this.height, this.length := width, height, length;
      palette := [AIR];
      voxels := new nat[Volume(width, height, length)](_ => 0);
      entities, tileEntities, blockTicks, fluidTicks := [], [], [], [];
    }

    /** `region[x, y, z]`: the block at a local coordinate, which must lie in the box. */
    method Get(px: int, py: int, pz: int) returns (r: Result<BlockState, RegionError>)
      requires Valid()
      ensures InBox(width, height, length, px, py, pz) ==>
        && 0 <= FlatIndex(width, height, length, px, py, pz) < |Blocks()|
        && r == Success(Blocks()[FlatIndex(width, height, length, px, py, pz)])
      ensures !InBox(width, height, length, px, py, pz) ==> r == Failure(CoordinatesOutOfRange(px, py, pz))
    {
      if !InBox(width, height, length, px, py, pz) {
        return Failure(CoordinatesOutOfRange(px, py, pz));
      }
      FlatIndexInRange(width, height, length, px, py, pz);
      var k := FlatIndex(width, height, length, px, py, pz);
      r := Success(palette[voxels[k]]);
    }

    /** Whether some voxel holds palette index `o`. */
    method InUse(o: nat) returns (used: bool)
      ensures used <==> o in voxels[..]
    {
      var j := 0;
      while j < voxels.Length
        invariant 0 <= j <= voxels.Length
        invariant o !in voxels[..j]
      {
        if voxels[j] == o {
          assert voxels[..][j] == o;
          return true;
        }
        assert voxels[..j + 1] == voxels[..j] + [voxels[j]];
        j := j + 1;
      }
      assert voxels[..j] == voxels[..];
      return false;
    }

    /**
     * `region[x, y, z] = s`: the voxel takes `s` (added to the palette if
     * new), every other voxel keeps its block, and a palette entry the
     * overwritten voxel was the last to use is pruned.
     */
    method Set(px: int, py: int, pz: int, s: BlockState) returns (r: Outcome<RegionError>)
      requires Valid()
      modifies this, voxels
      ensures Valid()
      ensures InBox(width, height, length, px, py, pz) ==>
        && 0 <= FlatIndex(width, height, length, px, py, pz) < |old(Blocks())|
        && r == Pass
        && Blocks() == old(Blocks())[FlatIndex(width, height, length, px, py, pz) := s]
      ensures !InBox(width, height, length, px, py, pz) ==>
        r == Fail(CoordinatesOutOfRange(px, py, pz)) && Blocks() == old(Blocks()) && palette == old(palette)
      ensures entities == old(entities) && tileEntities == old(tileEntities)
      ensures blockTicks == old(blockTicks) && fluidTicks == old(fluidTicks)
    {
      if !InBox(width, height, length, px, py, pz) {
        return Fail(CoordinatesOutOfRange(px, py, pz));
      }
      FlatIndexInRange(width, height, length, px, py, pz);
      var k := FlatIndex(width, height, length, px, py, pz);
      ghost var before := Blocks();
      ghost var vs := voxels[..];
      var pal := palette;
      var o := voxels[k];
      var i: nat;
      match IndexOf(palette, s) {
        case Some(p) => i := p;
        case None =>
          palette := palette + [s];
          i := |palette| - 1;
          DistinctAppend(pal, s);
      }
      voxels[k] := i;
      assert voxels[..] == vs[k := i];
      WrittenBlocks(pal, palette, vs, k, i, s);
      assert Blocks() == before[k := s];
      var prune := false;
      if o != 0 && o != i {
        var used := InUse(o);
        prune := !used;
      }
      UsedAfterWrite(pal, palette, vs, k, i, o, prune);
      r := Pass;
      if prune {
        ghost var mid := Blocks();
        Rebuild(b => b);
        assert Blocks() == mid;
      }
    }

    /**
     * Renumbers the voxels against a new palette built from `[AIR]` in
     * voxel order, each voxel taking `f` of its block: the shared step of
     * pruning, `filter` and `replace`.
     */
    method Rebuild(f: BlockState -> BlockState)
      requires voxels.Length == Volume(width, height, length) && Indexed(palette, voxels[..])
      modifies this, voxels
      ensures Valid()
      ensures Blocks() == MapBlocks(f, old(Blocks()))
      ensures entities == old(entities) && tileEntities == old(tileEntities)
      ensures blockTicks == old(blockTicks) && fluidTicks == old(fluidTicks)
    {
      ghost var before := Blocks();
      ghost var vs := voxels[..];
      var pal := palette;
      var newPal := [AIR];
      var j := 0;
      while j < voxels.Length
        invariant 0 <= j <= voxels.Length
        invariant |newPal| >= 1 && newPal[0] == AIR && Storage.Distinct(newPal)
        invariant forall k :: 0 <= k < j ==> voxels[k] < |newPal| && newPal[voxels[k]] == f(before[k])
        invariant forall k :: j <= k < voxels.Length ==> voxels[k] == vs[k]
        invariant forall p :: 1 <= p < |newPal| ==> p in voxels[..j]
        invariant palette == pal
        invariant entities == old(entities) && tileEntities == old(tileEntities)
        invariant blockTicks == old(blockTicks) && fluidTicks == old(fluidTicks)
      {
        var b := f(pal[voxels[j]]);
        assert b == f(before[j]);
        var idx: nat;
        match IndexOf(newPal, b) {
          case Some(p) => idx := p;
          case None =>
            DistinctAppend(newPal, b);
            newPal := newPal + [b];
            idx := |newPal| - 1;
        }
        ghost var done := voxels[..j];
        voxels[j] := idx;
        assert voxels[..j + 1] == done + [idx];
        j := j + 1;
      }
      palette := newPal;
      assert voxels[..j] == voxels[..];
      assert Blocks() == MapBlocks(f, before);
    }

    /** `filter(f)`: every voxel takes `f` of its block; the palette stays valid. */
    method Filter(f: BlockState -> BlockState)
      requires Valid()
      modifies this, voxels
      ensures Valid()
      ensures Blocks() == MapBlocks(f, old(Blocks()))
      ensures entities == old(entities) && tileEntities == old(tileEntities)
      ensures blockTicks == old(blockTicks) && fluidTicks == old(fluidTicks)
    {
      Rebuild(f);
    }

    /** `replace(a, b)`: every voxel holding `a` holds `b`; the others keep their block. */
    method Replace(a: BlockState, b: BlockState)
      requires Valid()
      modifies this, voxels
      ensures Valid()
      ensures |Blocks()| == |old(Blocks())|
      ensures forall k :: 0 <= k < |Blocks()| ==> Blocks()[k] == if old(Blocks())[k] == a then b else old(Blocks())[k]
      ensures entities == old(entities) && tileEntities == old(tileEntities)
      ensures blockTicks == old(blockTicks) && fluidTicks == old(fluidTicks)
    {
      Rebuild(Replacing(a, b));
    }

    /** `s in region`: whether some voxel holds `s`. */
    method Contains(s: BlockState) returns (found: bool)
      requires Valid()
      ensures found <==> s in Blocks()
    {
      var j := 0;
      while j < voxels.Length
        invariant 0 <= j <= voxels.Length
        invariant forall k :: 0 <= k < j ==> Blocks()[k] != s
      {
        if palette[voxels[j]] == s {
          assert Blocks()[j] == s;
          return true;
        }
        j := j + 1;
      }
      return false;
    }

    /**
     * The palette of a valid region has air at index 0, no duplicates, and
     * only blocks some voxel holds besides air.
     */
    lemma ValidPalette()
      requires Valid()
      ensures |palette| >= 1 && palette[0] == AIR
      ensures forall p, q :: 0 <= p < q < |palette| ==> palette[p] != palette[q]
      ensures forall p :: 1 <= p < |palette| ==> palette[p] in Blocks()
    {
      forall p | 1 <= p < |palette|
        ensures palette[p] in Blocks()
      {
        PaletteEntriesUsed(palette, voxels[..], p);
      }
    }

    /** The index of the first tile entity at `p`, by a scan of the list. */
    method Locate(p: (int, int, int)) returns (r: Option<nat>)
      ensures r == FirstAt(tileEntities, p)
    {
      var ts := tileEntities;
      var j := |ts|;
      r := None;
      while j > 0
        invariant 0 <= j <= |ts|
        invariant FirstAt(ts[j..], p).Some? ==> r == Some(j + FirstAt(ts[j..], p).value)
        invariant FirstAt(ts[j..], p).None? ==> r == None
      {
        j := j - 1;
        assert ts[j..][1..] == ts[j + 1..];
        if ts[j].Position() == p {
          r := Some(j);
        }
      }
      assert ts[0..] == ts;
    }

    /** `get_block_entity(p)`: the first tile entity at `p`, or none. */
    method GetBlockEntity(p: (int, int, int)) returns (r: Option<TileEntity>)
      ensures r.Some? ==> r.value in tileEntities && r.value.Position() == p
      ensures r.None? <==> forall j :: 0 <= j < |tileEntities| ==> tileEntities[j].Position() != p
      ensures r.Some? ==> exists j :: 0 <= j < |tileEntities| && tileEntities[j] == r.value && FirstAt(tileEntities, p) == Some(j)
    {
      var i := Locate(p);
      match i {
        case None => r := None;
        case Some(j) => r := Some(tileEntities[j]);
      }
    }

    /**
     * `set_block_entity(t)`: `t` replaces the first tile entity at its
     * position, or is appended when there is none.
     */
    method SetBlockEntity(t: TileEntity)
      modifies this
      ensures old(FirstAt(tileEntities, t.Position())).None? ==> tileEntities == old(tileEntities) + [t]
      ensures old(FirstAt(tileEntities, t.Position())).Some? ==>
        tileEntities == old(tileEntities)[old(FirstAt(tileEntities, t.Position())).value := t]
      ensures t in tileEntities
      ensures palette == old(palette) && entities == old(entities)
      ensures blockTicks == old(blockTicks) && fluidTicks == old(fluidTicks)
    {
      var i := Locate(t.Position());
      match i {
        case None => tileEntities := tileEntities + [t];
        case Some(j) =>
          tileEntities := tileEntities[j := t];
          assert tileEntities[j] == t;
      }
    }

    /**
     * `remove_block_entity(p)`: removes and returns the first tile entity at
     * `p`; with none there, returns none and leaves the list unchanged.
     */
    method RemoveBlockEntity(p: (int, int, int)) returns (r: Option<TileEntity>)
      modifies this
      ensures old(FirstAt(tileEntities, p)).None? ==> r == None && tileEntities == old(tileEntities)
      ensures old(FirstAt(tileEntities, p)).Some? ==>
        var j := old(FirstAt(tileEntities, p)).value;
        && r == Some(old(tileEntities)[j])
        && r.value.Position() == p
        && tileEntities == old(tileEntities)[..j] + old(tileEntities)[j + 1..]
      ensures palette == old(palette) && entities == old(entities)
      ensures blockTicks == old(blockTicks) && fluidTicks == old(fluidTicks)
    {
      var i := Locate(p);
      match i {
        case None => r := None;
        case Some(j) =>
          r := Some(tileEntities[j]);
          tileEntities := tileEntities[..j] + tileEntities[j + 1..];
      }
    }

    /** `entities.extend(es)`: appended in order. */
    method ExtendEntities(es: seq<Entity>)
      modifies this
      ensures entities == old(entities) + es
      ensures palette == old(palette) && tileEntities == old(tileEntities)
      ensures blockTicks == old(blockTicks) && fluidTicks == old(fluidTicks)
    {
      entities := entities + es;
    }

    /** `tile_entities.extend(ts)`: appended in order. */
    method ExtendTileEntities(ts: seq<TileEntity>)
      modifies this
      ensures tileEntities == old(tileEntities) + ts
      ensures palette == old(palette) && entities == old(entities)
      ensures blockTicks == old(blockTicks) && fluidTicks == old(fluidTicks)
    {
      tileEntities := tileEntities + ts;
    }

    /** `block_ticks.extend(ts)`: appended in order. */
    method ExtendBlockTicks(ts: seq<PendingBlockTick>)
      modifies this
      ensures blockTicks == old(blockTicks) + ts
      ensures palette == old(palette) && entities == old(entities)
      ensures tileEntities == old(tileEntities) && fluidTicks == old(fluidTicks)
    {
      blockTicks := blockTicks + ts;
    }

    /** `fluid_ticks.extend(ts)`: appended in order. */
    method ExtendFluidTicks(ts: seq<PendingFluidTick>)
      modifies this
      ensures fluidTicks == old(fluidTicks) + ts
      ensures palette == old(palette) && entities == old(entities)
      ensures tileEntities == old(tileEntities) && blockTicks == old(blockTicks)
    {
      fluidTicks := fluidTicks + ts;
    }
  }

  /** Appending a block absent from a duplicate-free palette keeps it duplicate-free. */
  lemma DistinctAppend(pal: seq<BlockState>, s: BlockState)
    requires Storage.Distinct(pal) && s !in pal
    ensures Storage.Distinct(pal + [s])
  {
  }

  /** After writing palette index `i` (whose entry is `s`) at voxel `k`, only that voxel's block changed. */
  lemma WrittenBlocks(pal: seq<BlockState>, pal': seq<BlockState>, vs: seq<nat>, k: nat, i: nat, s: BlockState)
    requires Indexed(pal, vs) && k < |vs|
    requires pal' == pal || pal' == pal + [s]
    requires i < |pal'| && pal'[i] == s
    ensures Resolve(pal', vs[k := i]) == Resolve(pal, vs)[k := s]
  {
  }

  /**
   * After the write, every palette entry is still in use unless it is the
   * overwritten index `o` and that index was found unused.
   */
  lemma UsedAfterWrite(pal: seq<BlockState>, pal': seq<BlockState>, vs: seq<nat>, k: nat, i: nat, o: nat, prune: bool)
    requires PaletteOk(pal, vs) && k < |vs| && vs[k] == o
    requires (pal' == pal && i < |pal|) || (|pal'| == |pal| + 1 && pal' == pal + [pal'[|pal|]] && i == |pal| && pal'[|pal|] !in pal)
    requires !prune ==> o == 0 || o == i || o in vs[k := i]
    ensures Indexed(pal', vs[k := i])
    ensures !prune ==> PaletteOk(pal', vs[k := i])
  {
    var vs' := vs[k := i];
    assert vs'[k] == i;
    forall p | 1 <= p < |pal'|
      ensures p == o || p in vs'
    {
      if p != i && p != o {
        assert p in vs;
        var q :| 0 <= q < |vs| && vs[q] == p;
        assert vs'[q] == p;
      }
    }
  }

  // ===========================================================================
  // Schematics

  /** The smallest element. */
  function MinOf(s: seq<int>): (m: int)
    requires |s| > 0
    ensures m in s
    ensures forall i :: 0 <= i < |s| ==> m <= s[i]
  {
    if |s| == 1 then s[0]
    else
      var m := MinOf(s[..|s| - 1]);
      if s[|s| - 1] < m then s[|s| - 1] else m
  }

  /** The largest element. */
  function MaxOf(s: seq<int>): (m: int)
    requires |s| > 0
    ensures m in s
    ensures forall i :: 0 <= i < |s| ==> s[i] <= m
  {
    if |s| == 1 then s[0]
    else
      var m := MaxOf(s[..|s| - 1]);
      if m < s[|s| - 1] then s[|s| - 1] else m
  }

  /** The regions of the store in key order. */
  function InOrder(keys: seq<string>, store: map<string, Region>): (rs: seq<Region>)
    requires forall i :: 0 <= i < |keys| ==> keys[i] in store
    ensures |rs| == |keys|
    ensures forall i :: 0 <= i < |keys| ==> rs[i] == store[keys[i]]
  {
    seq(|keys|, i requires 0 <= i < |keys| => store[keys[i]])
  }

  /** The lowest schematic coordinate of each region on axis `a`. */
  function Lows(rs: seq<Region>, a: Axis): seq<int>
  {
    seq(|rs|, i requires 0 <= i < |rs| => rs[i].MinSchem(a))
  }

  /** The highest schematic coordinate of each region on axis `a`. */
  function Highs(rs: seq<Region>, a: Axis): seq<int>
  {
    seq(|rs|, i requires 0 <= i < |rs| => rs[i].MaxSchem(a))
  }

  /**
   * The enclosing size of the regions on axis `a` (`Schematic.width`,
   * `height`, `length`): from the lowest minimum to the highest maximum,
   * and 0 when there is no region.
   */
  function Span(rs: seq<Region>, a: Axis): int
  {
    if |rs| == 0 then 0 else MaxOf(Highs(rs, a)) - MinOf(Lows(rs, a)) + 1
  }

  /**
   * The span encloses every region, and is tight: some region reaches its
   * low end and some region its high end.
   */
  lemma SpanEncloses(rs: seq<Region>, a: Axis)
    requires |rs| > 0
    ensures var lo := MinOf(Lows(rs, a));
      && (forall i :: 0 <= i < |rs| ==> lo <= rs[i].MinSchem(a) && rs[i].MaxSchem(a) <= lo + Span(rs, a) - 1)
      && (exists i :: 0 <= i < |rs| && rs[i].MinSchem(a) == lo)
      && (exists j :: 0 <= j < |rs| && rs[j].MaxSchem(a) == lo + Span(rs, a) - 1)
  {
    var lows, highs := Lows(rs, a), Highs(rs, a);
    var lo, hi := MinOf(lows), MaxOf(highs);
    assert Span(rs, a) == hi - lo + 1;
    forall k | 0 <= k < |rs|
      ensures lo <= rs[k].MinSchem(a) && rs[k].MaxSchem(a) <= hi
    {
      assert lows[k] == rs[k].MinSchem(a) && highs[k] == rs[k].MaxSchem(a);
    }
    assert lo in lows;
    var i :| 0 <= i < |lows| && lows[i] == lo;
    assert rs[i].MinSchem(a) == lo;
    assert hi in highs;
    var j :| 0 <= j < |highs| && highs[j] == hi;
    assert rs[j].MaxSchem(a) == hi;
  }

  /** A region's own size on an axis is the span of that region alone. */
  lemma SpanOfOne(r: Region, a: Axis)
    requires r.Size(a) != 0
    ensures Span([r], a) == Abs(r.Size(a))
  {
    assert Lows([r], a) == [r.MinSchem(a)];
    assert Highs([r], a) == [r.MaxSchem(a)];
    r.BoxBounds(a, 0);
  }

  /** The extremes of a prefix grown by one element. */
  lemma ExtremesStep(s: seq<int>, i: nat)
    requires 1 <= i < |s|
    ensures MinOf(s[..i + 1]) == if s[i] < MinOf(s[..i]) then s[i] else MinOf(s[..i])
    ensures MaxOf(s[..i + 1]) == if MaxOf(s[..i]) < s[i] then s[i] else MaxOf(s[..i])
  {
    assert s[..i + 1][..i] == s[..i];
  }

  /** One pass over the regions keeping the lowest minimum and the highest maximum. */
  method EnclosingSize(rs: seq<Region>, a: Axis) returns (n: int)
    ensures n == Span(rs, a)
  {
    if |rs| == 0 {
      return 0;
    }
    ghost var lows, highs := Lows(rs, a), Highs(rs, a);
    var lo, hi := rs[0].MinSchem(a), rs[0].MaxSchem(a);
    var i := 1;
    while i < |rs|
      invariant 1 <= i <= |rs|
      invariant lo == MinOf(lows[..i]) && hi == MaxOf(highs[..i])
    {
      ExtremesStep(lows, i);
      ExtremesStep(highs, i);
      if rs[i].MinSchem(a) < lo {
        lo := rs[i].MinSchem(a);
      }
      if hi < rs[i].MaxSchem(a) {
        hi := rs[i].MaxSchem(a);
      }
      i := i + 1;
    }
    assert lows[..i] == lows && highs[..i] == highs;
    n := hi - lo + 1;
  }

  /**
   * Regions 10 wide at x = 0, 90 and 50 enclose a width of 100; without the
   * one at 90, 60; with the one at 50 replaced by one of width -10 at 49, 50.
   */
  lemma WidthFollowsRegions(r1: Region, r2: Region, r3: Region, r4: Region)
    requires r1.x == 0 && r2.x == 90 && r3.x == 50 && r4.x == 49
    requires r1.width == 10 && r2.width == 10 && r3.width == 10 && r4.width == -10
    ensures Span([r1, r2, r3], X) == 100
    ensures Span([r1, r3], X) == 60
    ensures Span([r1, r4], X) == 50
  {
    assert Lows([r1, r2, r3], X) == [0, 90, 50] && Highs([r1, r2, r3], X) == [9, 99, 59];
    assert [0, 90, 50][..2] == [0, 90] && [9, 99, 59][..2] == [9, 99];
    assert Lows([r1, r3], X) == [0, 50] && Highs([r1, r3], X) == [9, 59];
    assert Lows([r1, r4], X) == [0, 40] && Highs([r1, r4], X) == [9, 49];
  }

  /** The litematic format versions `Schematic.from_nbt` reads. */
  const SUPPORTED_VERSIONS: set<int> := {6, 7}

  datatype SchematicError =
    | VersionMissing
    | VersionNotInteger
    | UnsupportedVersion(version: int)

  /** The version check `Schematic.from_nbt` makes before reading anything else. */
  function CheckVersion(c: Compound): (r: Result<int, SchematicError>)
    ensures r.Success? <==> "Version" in c && IsInteger(c["Version"]) && IntegerValue(c["Version"]) in SUPPORTED_VERSIONS
    ensures r.Success? ==> r.value in SUPPORTED_VERSIONS && c["Version"] in {Byte(r.value), Short(r.value), Int(r.value), Long(r.value)}
    ensures "Version" !in c ==> r == Failure(VersionMissing)
    ensures "Version" in c && !IsInteger(c["Version"]) ==> r == Failure(VersionNotInteger)
    ensures r.Failure? && r.error.UnsupportedVersion? ==>
      "Version" in c && IsInteger(c["Version"]) && r.error.version == IntegerValue(c["Version"]) && r.error.version !in SUPPORTED_VERSIONS
  {
    if "Version" !in c then Failure(VersionMissing)
    else if !IsInteger(c["Version"]) then Failure(VersionNotInteger)
    else
      var v := IntegerValue(c["Version"]);
      if v in SUPPORTED_VERSIONS then Success(v) else Failure(UnsupportedVersion(v))
  }

  /** The discriminator of `Schematic.regions`: a region name must not be empty. */
  function RegionName(name: string, r: Region): (verdict: (bool, string))
    ensures verdict.0 <==> name != ""
  {
    if name == "" then (false, "region name must not be empty") else (true, "")
  }

  /** A schematic: its regions by name, in insertion order. */
  class Schematic {
    const regions: Storage.DiscriminatingDictionary<string, Region>
    var lmVersion: int

    ghost predicate Valid()
      reads this, regions
    {
      regions.Valid() && regions.discriminator == RegionName
    }

    /** `Schematic()`: no regions, the newest format version. */
    constructor ()
      ensures Valid() && fresh(regions)
      ensures regions.keys == [] && regions.store == map[]
      ensures lmVersion == 7
    {
      regions := new Storage.DiscriminatingDictionary(RegionName, Storage.State([], map[]));
      lmVersion := 7;
    }

    /** The regions in insertion order. */
    ghost function Members(): seq<Region>
      reads this, regions
      requires Valid()
    {
      InOrder(regions.keys, regions.store)
    }

    /** Every key of a valid schematic names a stored region. */
    lemma KeysStored()
      requires Valid()
      ensures forall i :: 0 <= i < |regions.keys| ==> regions.keys[i] in regions.store
    {
    }

    /** `width`, `height` and `length`: the enclosing size over the current regions on an axis. */
    method Extent(a: Axis) returns (n: int)
      requires Valid()
      ensures n == Span(Members(), a)
    {
      KeysStored();
      var rs := InOrder(regions.keys, regions.store);
      n := EnclosingSize(rs, a);
    }
  }
}
