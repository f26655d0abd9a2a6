# litemapy block storage, in Dafny

litemapy reads and writes Litematica schematics: named rectangular regions of
Minecraft blocks. This project models the in-memory core of the library and
proves properties about it:

- **`LitematicaBitArray`** (`storage.dfy`, module `Storage`). It packs `size`
  unsigned values of `nbits` bits each into `ceil(size * nbits / 64)` 64-bit
  words. A value may straddle two words. The class keeps an `array` of words.
  Its abstraction function `Values()` reads the words as one large natural
  number and cuts it into fields. `Set` is a read-modify-write of one word or
  two, and is proved to change exactly one value. Export to a word list and
  import from one round-trip. Iteration, reversal into a new array and
  membership are proved against `Values()`.
- **`DiscriminatingDictionary`** (`storage.dfy`). It is a dictionary in
  insertion order that refuses pairs its discriminator rejects. The
  `onadd`/`onremove` hooks are modelled as a ghost log of events. Each
  operation is specified by a pure function over `(keys, store)`.
  - `Valid()` keeps the invariant that replaying the log over the initial
    contents yields the current contents.
  - `Faithful` states that an operation either fails with nothing changed,
    or changes the store exactly as its logged events say.
- **`BlockState` and identifiers** (`minecraft.dfy`, module `Minecraft`).
  - `is_valid_identifier` is a character scan. It is proved equal to the
    reading "non-empty namespace, one colon, non-empty path".
  - A block state is an immutable value with structural equality.
  - `with_id` and `with_properties` produce new values.
  - Properties are listed in name order. The rendered `id[k=v,...]` string
    is proved to read back to the block state.
  - The NBT form round-trips.
- **`TileEntity`** (`minecraft.dfy`). A class over its NBT compound, whose
  `x`/`y`/`z` keys give its position; each missing key reads as 0.
- **Pending ticks** (`ticks.dfy`, module `Ticks`). `PendingBlockTick` and
  `PendingFluidTick` and their `from_nbt`/`to_nbt`.
- **`Region` and `Schematic`** (`schematic.dfy`, module `Schematic`).
  - A region's signed size gives its local and schematic-space bounding box.
  - The voxels are indices into a palette of block states. `palette[0]` is
    always air, the palette has no duplicates, and every other entry is in
    use. `Set`, `Filter` and `Replace` rewrite the voxels in place and keep
    this invariant.
  - The tile-entity list is searched by position.
  - The schematic's width, height and length enclose all its regions.
  - The format-version check runs when a schematic is read.

Supporting modules are `Wrappers` (`Option`, `Result`, `Outcome`), `Nbt` (tags
as a datatype) and `BitMath` (bit fields of naturals). `BitMath` writes the
source's shifts and masks as division, modulus and multiplication by powers of
two.

## Model

| member | source | states |
|---|---|---|
| Storage.Decode | tests/test_storage.py:157-171 | the words decode to exactly `size` values, each below `2^nbits` |
| Storage.LitematicaBitArray.constructor | tests/test_storage.py:300-307 | a new array holds `size` zeros of width `nbits` |
| Storage.LitematicaBitArray.Read | tests/test_storage.py:9-16 | reading index `i` (within one word or across two) returns value `i` of the abstraction |
| Storage.LitematicaBitArray.Get | tests/test_storage.py:19-28 | `arr[i]` returns value `i` inside `[0, size)`, IndexError outside |
| Storage.LitematicaBitArray.Write | tests/test_storage.py:9-16 | the read-modify-write of one or two words changes value `i` to `v` and no other value |
| Storage.DecodeUpdate | tests/test_storage.py:9-16 | updating the field of index `i` in the words updates exactly entry `i` of the decoded values (no cross-talk between neighbours) |
| Storage.DecodeZero | tests/test_storage.py:300-307 | all-zero words decode to all-zero values |
| Storage.LitematicaBitArray.Set | tests/test_storage.py:19-28 | IndexError outside `[0, size)`, else ValueError unless `0 <= v < 2^nbits`, else value `i` becomes `v`; on an error nothing changes |
| Storage.LitematicaBitArray.ToWords | tests/test_storage.py:187-207 | the exported list has `ceil(size*nbits/64)` words and decodes to the current values |
| Storage.LitematicaBitArray.FromWords | tests/test_storage.py:157-184 | a word count other than `ceil(size*nbits/64)` is a ValueError; otherwise a fresh array whose values are the decoding of the words, so importing an export restores every value |
| Storage.LitematicaBitArray.Iterate | tests/test_storage.py:231-248 | iteration yields exactly the `size` values in index order |
| Storage.LitematicaBitArray.Reversed | tests/test_storage.py:251-269 | a fresh array of the same size and width whose value `k` is value `size-1-k`; the original is unchanged |
| Storage.Reverse | tests/test_storage.py:251-269 | reversal keeps the length |
| Storage.ReverseReverse | tests/test_storage.py:291-297 | reversing twice gives back the values |
| Storage.LitematicaBitArray.Contains | tests/test_storage.py:31-37 | `v in arr` holds iff some index holds `v` |
| Storage.Insert | tests/test_storage.py:40-66 | storing a key sets its value, keeps the insertion order of existing keys and appends a new key |
| Storage.Store | tests/test_storage.py:126-150 | the discriminator decides; a refusal is DiscriminationError with its reason and no change; an overwrite fires `onremove(old)` then `onadd(new)`, a new key only `onadd` |
| Storage.StoreFaithful | tests/test_storage.py:69-150 | the events a store fires, replayed, turn the old contents into the new |
| Storage.StoreThenLookup | tests/test_storage.py:40-66 | after an accepted store the key reads back its value and every other key is unchanged |
| Storage.UpdateAllOutcome | tests/test_storage.py:52-59 | `update` succeeds iff every pair is accepted; otherwise it fails with the reason of the first refused pair |
| Storage.UpdateAllFaithful | tests/test_storage.py:126-150 | the events of `update`, replayed, give the contents after it, including after a refusal part-way |
| Storage.AfterAfter | tests/test_storage.py:126-150 | prefixing events twice is prefixing their concatenation |
| Storage.ReplayAppend | tests/test_storage.py:69-150 | replaying two logs one after the other is replaying their concatenation |
| Storage.Without | tests/test_storage.py:92-123 | dropping a key from the key order keeps every other key and keeps them distinct |
| Storage.WithoutOrdered | tests/test_storage.py:92-123 | removing a key keeps key order and store in agreement |
| Storage.Remove | tests/test_storage.py:92-123 | removing a missing key is KeyError and changes nothing; otherwise the key goes and `onremove` is told its value |
| Storage.RemoveFaithful | tests/test_storage.py:92-123 | the events of a removal, replayed, give the contents after it |
| Storage.Removals | tests/test_storage.py:117-123 | `clear` tells `onremove` of every entry in insertion order |
| Storage.ReplayRemovals | tests/test_storage.py:117-123 | replaying those events removes exactly the cleared keys |
| Storage.FromPairs | tests/test_storage.py:61-66 | building from pairs keeps every key that appears, and no other |
| Storage.FromPairsStep | tests/test_storage.py:61-66 | building from one more pair is assigning that pair |
| Storage.DiscriminatingDictionary.constructor | tests/test_storage.py:79-89 | contents given at construction are stored without firing the hooks |
| Storage.DiscriminatingDictionary.Create | tests/test_storage.py:61-66 | building from pairs succeeds iff the discriminator accepts every resulting entry, else DiscriminationError with a refused entry's reason |
| Storage.DiscriminatingDictionary.Collect | tests/test_storage.py:61-66 | the loop over the pairs computes `FromPairs` |
| Storage.DiscriminatingDictionary.Screen | tests/test_storage.py:61-66 | the loop over the entries passes iff every entry is accepted |
| Storage.DiscriminatingDictionary.Contains | tests/test_storage.py:40-66 | `k in d` iff `k` is stored |
| Storage.DiscriminatingDictionary.Lookup | tests/test_storage.py:51 | `d.get(k)` is the value, or None for a missing key |
| Storage.DiscriminatingDictionary.GetItem | tests/test_storage.py:40-66 | `d[k]` is the value, or KeyError |
| Storage.DiscriminatingDictionary.Values | tests/test_storage.py:50 | the values in key order, each stored value among them |
| Storage.DiscriminatingDictionary.SetItem | tests/test_storage.py:40-89 | `d[k] = v` is `Store`, and the hook log grows by its events |
| Storage.DiscriminatingDictionary.Update | tests/test_storage.py:52-59 | `update` is the pairs stored one by one, stopping at the first refusal, with the hooks told of each accepted pair |
| Storage.DiscriminatingDictionary.UpdateStep | tests/test_storage.py:126-150 | one pair of `update` advances the remaining work by one pair |
| Storage.DiscriminatingDictionary.SetDefault | tests/test_storage.py:86-89 | a present key is returned unchanged; a missing key is stored (through the discriminator) and its new value returned |
| Storage.DiscriminatingDictionary.Delete | tests/test_storage.py:104-107 | `del d[k]` is `Remove` |
| Storage.DiscriminatingDictionary.Pop | tests/test_storage.py:108-113 | `pop` returns the removed value, else the default, else KeyError |
| Storage.DiscriminatingDictionary.PopItem | tests/test_storage.py:114-115 | `popitem` removes and returns the most recently inserted pair; on an empty dictionary it fails with `EmptyDictionary`, which stands for Python's KeyError |
| Storage.DiscriminatingDictionary.Clear | tests/test_storage.py:117-123 | `clear` empties the dictionary and tells `onremove` of every entry |
| Minecraft.ScanPathMeaning | tests/test_minecraft.py:73-83 | the path scan accepts iff the path is non-empty and every character is a path character |
| Minecraft.ScanNamespaceMeaning | tests/test_minecraft.py:73-83 | the namespace scan accepts iff a colon follows a valid namespace and a valid path follows it |
| Minecraft.IdentifierMeaning | tests/test_minecraft.py:73-83 | `is_valid_identifier(s)` iff `s` is a non-empty namespace, a colon, and a non-empty path |
| Minecraft.OneColon | tests/test_minecraft.py:79 | a valid identifier has only one place its colon can be |
| Minecraft.NoBracket | tests/test_minecraft.py:80 | no valid identifier contains `[` |
| Minecraft.NewBlockState | tests/test_minecraft.py:10-29 | construction succeeds iff the identifier is valid, keeping id and properties; otherwise InvalidIdentifier |
| Minecraft.WithId | tests/test_minecraft.py:18-29 | `with_id` keeps the properties and checks the new identifier the same way |
| Minecraft.WithProperties | tests/test_minecraft.py:40-47 | `with_properties` keeps the id; a `None` removes its key, any other value sets it, other keys unchanged |
| Minecraft.Property | tests/test_minecraft.py:10-15 | `b[k]` is the value of property `k`, present iff `k in b` |
| Minecraft.LexIrreflexive | tests/test_minecraft.py:50-56 | name order: no name precedes itself |
| Minecraft.LexAsymmetric | tests/test_minecraft.py:50-56 | name order: two names are not each before the other |
| Minecraft.LexTransitive | tests/test_minecraft.py:50-56 | name order is transitive |
| Minecraft.LexTotal | tests/test_minecraft.py:50-56 | of two distinct names one comes first |
| Minecraft.LeastExists | tests/test_minecraft.py:50-56 | a non-empty set of names has a first one |
| Minecraft.LeastUnique | tests/test_minecraft.py:50-56 | that first name is unique |
| Minecraft.LeastUniqueAll | tests/test_minecraft.py:50-56 | the first name of a set is unique, for every candidate pair |
| Minecraft.SortedNames | tests/test_minecraft.py:50-56 | the names of a set, each once, in strictly increasing order |
| Minecraft.PropertyList | tests/test_minecraft.py:50-56 | `properties()` lists every property exactly once with its value, in increasing name order |
| Minecraft.PairsCover | tests/test_minecraft.py:50-56 | pairs built from every name of a map contain every entry of that map |
| Minecraft.FromPairListAgrees | tests/test_minecraft.py:50-56 | a dictionary built from pairs taken from `m` agrees with `m` and holds each listed name |
| Minecraft.RebuildsFrom | tests/test_minecraft.py:50-56 | pairs taken from `m` that list all of `m` rebuild `m` |
| Minecraft.PropertyListRebuilds | tests/test_minecraft.py:50-56 | `dict(b.properties())` gives back the property map |
| Minecraft.Before | tests/test_minecraft.py:40-47 | the text before the first separator is a prefix without it, and all of a text without one |
| Minecraft.After | tests/test_minecraft.py:40-47 | the text after the first separator completes the text: before, separator, after |
| Minecraft.BeforeOfPrefix | tests/test_minecraft.py:40-47 | the text before the first separator of `p + t` is `p` when `p` has none and `t` starts with one |
| Minecraft.SplitAtFirst | tests/test_minecraft.py:40-47 | splitting `p`, separator, `t` at the first separator gives back `p` and `t` |
| Minecraft.ParseJoin | tests/test_minecraft.py:40-47 | `name=value` pairs joined by commas are read back exactly, when names hold no `,` or `=` and values no `,` |
| Minecraft.BlockStateIdentifierRoundTrip | tests/test_minecraft.py:40-47 | reading `to_block_state_identifier()` back gives the block state: the id, and between the brackets exactly the properties in name order |
| Minecraft.BlockStateIdentifierInjective | tests/test_minecraft.py:40-47 | two such block states with the same rendered identifier are equal |
| Minecraft.BlockStateIdentifierId | tests/test_minecraft.py:40-47 | the rendered identifier of a valid block state starts with its id, up to the `[` |
| Minecraft.BlockStateToNbt | tests/test_minecraft.py:32-37 | `to_nbt` writes `Name` and, only when there are properties, a `Properties` compound |
| Minecraft.BlockStateFromNbt | tests/test_minecraft.py:32-37 | `from_nbt` fails with KeyError without `Name`, WrongTagType when `Name` is not a string or `Properties` not a compound of strings, InvalidIdentifier for an invalid name; otherwise it succeeds with the name as id and every `Properties` entry as a property |
| Minecraft.BlockStateRoundTrip | tests/test_minecraft.py:32-37 | `from_nbt(b.to_nbt()) == b` for every valid block state |
| Minecraft.Coordinate | tests/test_minecraft.py:317-333 | a missing position key reads as 0, an integer tag as its value |
| Minecraft.BadPositionKey | tests/test_minecraft.py:317-333 | names a position key holding a non-integer, exactly when there is one |
| Minecraft.TileEntity.constructor | tests/test_minecraft.py:302-315 | the tile entity holds the given compound |
| Minecraft.TileEntity.FromNbt | tests/test_minecraft.py:355-365 | `from_nbt` keeps the compound, failing iff a position key holds a non-integer |
| Minecraft.TileEntity.ToNbt | tests/test_minecraft.py:336-353 | `to_nbt` is the compound as held (missing position keys are not written back), whose coordinates read back as the position |
| Minecraft.TileEntity.SetPosition | tests/test_minecraft.py:404-419 | setting `position` writes `x`, `y`, `z` and keeps every other key |
| Minecraft.TileEntity.AddTag | tests/test_minecraft.py:445-467 | `add_tag` stores the tag; on `x`/`y`/`z` it changes only that coordinate, refusing a non-integer |
| Minecraft.TileEntity.GetTag | tests/test_minecraft.py:470-488 | `get_tag` is the tag, or KeyError |
| Minecraft.TileEntity.SetData | tests/test_minecraft.py:422-442 | assigning `data` replaces the compound when its position keys are readable |
| Ticks.FirstMissing | litemapy/ticks.py:37-47 | the first key, in reading order, missing from the compound, if any |
| Ticks.BlockTickFromNbt | litemapy/ticks.py:37-47 | each field is read from its same-named key; a missing key is a KeyError naming it |
| Ticks.BlockTickToNbt | litemapy/ticks.py:49-63 | `to_nbt` emits exactly the keys block, priority, sub_tick, time, x, y, z |
| Ticks.BlockTickRoundTrip | litemapy/ticks.py:37-63 | `from_nbt(t.to_nbt()) == t` |
| Ticks.BlockTickKeepsFields | litemapy/ticks.py:37-63 | reading a compound and writing it back keeps exactly its seven tick keys |
| Ticks.FluidTickFromNbt | litemapy/ticks.py:88-98 | as for block ticks, with `fluid` in place of `block` |
| Ticks.FluidTickToNbt | litemapy/ticks.py:100-114 | `to_nbt` emits exactly the keys fluid, priority, sub_tick, time, x, y, z |
| Ticks.FluidTickRoundTrip | litemapy/ticks.py:88-114 | `from_nbt(t.to_nbt()) == t` |
| Ticks.FluidTickKeepsFields | litemapy/ticks.py:88-114 | reading a compound and writing it back keeps exactly its seven tick keys |
| Schematic.Abs | tests/test_schematics.py:22-42 | the magnitude of a signed size |
| Schematic.MinCoord | tests/test_schematics.py:45-110 | local minimum: 0 for a positive size, `size+1` for a negative one |
| Schematic.MaxCoord | tests/test_schematics.py:45-110 | local maximum: `size-1` for a positive size, 0 for a negative one |
| Schematic.AxisSpan | tests/test_schematics.py:45-110 | a non-empty axis spans exactly `|size|` coordinates and contains 0 |
| Schematic.FlatIndexInRange | tests/test_schematics.py:249-253 | every local coordinate of the box has a place among the voxels |
| Schematic.FlatIndexInverse | tests/test_schematics.py:249-253 | distinct coordinates have distinct places: the place reads back as the coordinate |
| Schematic.CoordinatesInBox | tests/test_schematics.py:249-253 | every voxel place is the place of a coordinate of the box |
| Schematic.Resolve | tests/test_schematics.py:225-240 | one block per voxel |
| Schematic.PaletteEntriesUsed | tests/test_schematics.py:225-240 | under the palette invariant every non-air entry is the block of some voxel |
| Schematic.IndexOf | tests/test_schematics.py:225-240 | the place of a block in the palette, or none when it is absent |
| Schematic.MapBlocks | tests/test_schematics.py:171-178 | `f` applied to every voxel's block, place by place |
| Schematic.FirstAt | tests/test_region_collections.py:168-205 | the first tile entity at a position, or none when no tile entity is there |
| Schematic.Region.Blocks | tests/test_schematics.py:249-253 | one block per voxel |
| Schematic.Region.BoxBounds | tests/test_schematics.py:45-110 | schematic bounds are position plus local bounds, `max - min + 1 == |size|`, and the position lies inside |
| Schematic.Region.constructor | tests/test_region_collections.py:19-23 | a new region is all air with palette `[air]` and empty entities, tile entities, block ticks and fluid ticks |
| Schematic.Region.Get | tests/test_schematics.py:249-253 | `region[x, y, z]` is the block at that voxel, or an error outside the box |
| Schematic.Region.InUse | tests/test_schematics.py:242-246 | whether some voxel holds a palette index |
| Schematic.Region.Set | tests/test_schematics.py:242-263 | writes one voxel's block and nothing else; the palette keeps air first, no duplicates, no unused entry (stone is pruned once unused); outside the box an error and no change, palette included |
| Schematic.Region.Rebuild | tests/test_schematics.py:171-178 | rewrites every voxel through `f` and rebuilds a valid palette |
| Schematic.Region.Filter | tests/test_schematics.py:171-178 | `filter(f)`: every voxel becomes `f` of its old block and the palette stays valid |
| Schematic.Region.Replace | tests/test_schematics.py:266-279 | `replace(a, b)`: voxels holding `a` hold `b`, others unchanged, palette valid with air first |
| Schematic.Region.Contains | tests/test_schematics.py:256-263 | `s in region` iff some voxel holds `s` |
| Schematic.Region.ValidPalette | tests/test_schematics.py:225-240 | `palette[0]` is air, no duplicates, every other entry is used |
| Schematic.Region.Locate | tests/test_region_collections.py:168-205 | the scan finds the first tile entity at a position |
| Schematic.Region.GetBlockEntity | tests/test_region_collections.py:168-205 | `get_block_entity(p)` is a tile entity at `p`, or None iff there is none |
| Schematic.Region.SetBlockEntity | tests/test_region_collections.py:149-166 | `set_block_entity(t)` replaces the tile entity at `t`'s position, or appends `t` |
| Schematic.Region.RemoveBlockEntity | tests/test_region_collections.py:207-249 | removes and returns the tile entity at `p`, or returns None and changes nothing |
| Schematic.Region.ExtendEntities | tests/test_region_collections.py:36-55 | entities are appended in order |
| Schematic.Region.ExtendTileEntities | tests/test_region_collections.py:106-147 | tile entities are appended in order |
| Schematic.Region.ExtendBlockTicks | tests/test_region_collections.py:255-259 | block ticks are appended in order |
| Schematic.Region.ExtendFluidTicks | tests/test_region_collections.py:322-326 | fluid ticks are appended in order |
| Schematic.DistinctAppend | tests/test_schematics.py:225-240 | appending an absent block keeps the palette duplicate-free |
| Schematic.WrittenBlocks | tests/test_schematics.py:249-253 | writing one voxel's palette index changes only that voxel's block |
| Schematic.UsedAfterWrite | tests/test_schematics.py:242-246 | after a write the palette invariant holds again unless the old entry became unused |
| Schematic.MinOf | tests/test_schematics.py:22-42 | the least of the values |
| Schematic.MaxOf | tests/test_schematics.py:22-42 | the greatest of the values |
| Schematic.InOrder | tests/test_schematics.py:22-42 | the regions in the schematic's key order |
| Schematic.SpanEncloses | tests/test_schematics.py:22-42 | the extent runs from the lowest region minimum to the highest region maximum, enclosing every region |
| Schematic.SpanOfOne | tests/test_schematics.py:31-34 | one region's extent is its own size |
| Schematic.ExtremesStep | tests/test_schematics.py:22-42 | extremes of a prefix grown by one element |
| Schematic.EnclosingSize | tests/test_schematics.py:22-42 | the loop over the regions computes the extent |
| Schematic.WidthFollowsRegions | tests/test_schematics.py:22-42 | an example, not a general fact: the test's regions give widths 100, 60 and 50 after adding, deleting and replacing regions; the general facts are `SpanEncloses`, `SpanOfOne` and `EnclosingSize` |
| Schematic.CheckVersion | tests/test_schematics.py:348-384 | versions 6 and 7 are accepted; any other is an error carrying that version; a missing or non-integer Version is an error |
| Schematic.RegionName | tests/test_schematics.py:22-42 | a region may be stored under any non-empty name |
| Schematic.Schematic.constructor | tests/test_schematics.py:22-25 | a new schematic has no regions |
| Schematic.Schematic.KeysStored | tests/test_schematics.py:22-42 | every region name of a schematic names a stored region |
| Schematic.Schematic.Extent | tests/test_schematics.py:22-42 | `width`, `height` and `length` are the extent over the current regions, 0 when there are none |

## Left out

- `litemapy/storage.py`, `litemapy/schematic.py` and `litemapy/minecraft.py` are not part of this model. Their behaviour is modelled from the tests that exercise them; where the tests are silent, the choices are listed below.
- File load and save, gzip, the nbtlib parser, and the native, Sponge and structure formats are left out. These are I/O and foreign-library code. The in-memory analogue is the word-list round trip of the bit array and the NBT round trips of block states and ticks.
- `litemapy/metadata.py` is left out. It projects fields from an nbtlib tree and converts timestamps with float division and the wall clock.
- The preview image and the schematic's name, author and description are left out.
- Entity positions, rotations and motions are floating-point tuples and are left out. An `Entity` is an opaque compound.
- The signed-long conversion of the word list is left out. Words are modelled as unsigned 64-bit values, because the signed form belongs to nbtlib's `LongArray`.
- Storage.LitematicaBitArray.constructor: requires `1 <= nbits <= 64`. The two-word read-modify-write covers only widths up to one word, and a width of 0 would store nothing.
- Storage.LitematicaBitArray.Set: a Python negative index is an IndexError here, as the tests expect for `-1`. Negative-index wrap-around is not modelled.
- Storage.DiscriminatingDictionary: the hooks are a ghost event log rather than callbacks that run code. The discriminator is a pure function returning a verdict and a reason.
- Storage.DiscriminatingDictionary.Update: takes a sequence of pairs. Python's keyword-argument form is not modelled. A sequence may repeat a key, which a Python dict argument cannot. Repeated keys are processed one pair at a time: the discriminator judges each intermediate value, which may refuse the update, and the hooks hear of each intermediate value.
- Minecraft.IsValidIdentifier: the character classes are lower-case letters, digits, `_`, `-` and `.`, plus `/` in the path, as in Minecraft resource locations.
- Minecraft.BlockStateFromNbt: property tags other than strings are refused. Python's `str()` of other tags is not modelled.
- Minecraft.BlockStateIdentifierRoundTrip: holds only when property names contain no `,` or `=` and values no `,`. The rendering does not escape these separators, so block states that use them can render alike. `ParseBlockStateIdentifier` is a reference reading used to state the round trip, not a library function.
- Minecraft.WithProperties: a `None` value removes the property if present and is otherwise ignored.
- Block-state hashing is modelled by structural equality of the datatype. Equal values are the same value, so they hash alike.
- `len(b)` is the size of the property map.
- Minecraft.TileEntity.constructor: requires every position key present to hold an integer tag. Python's `int()` conversion of other tags, such as a string holding digits, is not modelled.
- Minecraft.TileEntity.FromNbt: fails with WrongTagType when a position key holds a tag other than an integer tag. Python's `int()` conversion of other tags, such as a string holding digits, is not modelled.
- Minecraft.TileEntity.AddTag: refuses a tag other than an integer tag on `x`, `y` or `z`. Python's `int()` conversion of other tags, such as a string holding digits, is not modelled.
- Minecraft.TileEntity.ToNbt: returns the compound as held. Position keys the compound lacks, which read as 0, are not written back.
- The tile entity's `id` setter is not modelled.
- Minecraft.TileEntity.SetData: refuses a compound whose position keys hold non-integers. Python's `int()` conversion of such tags is not modelled.
- Tick fields are kept as the tags read, without checking their kinds, as `litemapy/ticks.py` does. nbtlib's tag classes become one `Tag` datatype.
- Schematic.Region.Get: local coordinates are the box from `min_x()` to `max_x()` (and likewise for y and z). Python negative-index wrap-around is not modelled.
- Schematic.Region.Set: a new block is added at the end of the palette. When the write leaves the old entry unused, the palette is rebuilt in first-use order. Where the library puts the surviving entries is not pinned down by its tests.
- Schematic.Region.Filter: after a filter or replace, the palette holds air first, then the surviving blocks in first-use order. The library's palette order after a rebuild is not pinned down and is not modelled.
- Schematic.Region.Filter: `f` is a pure function of the block; a filter that has side effects or that is called once per palette entry is indistinguishable here.
- Schematic.Region.SetBlockEntity: replaces the first tile entity at the same position, else appends. The tests pin down only the append to an empty list.
- Schematic.CheckVersion: the accepted versions are {6, 7}. Error message texts are the error's version field rather than a string.
- Schematic.RegionName: region names are required to be non-empty, and are unique as dictionary keys.
- Schematic.Schematic.Extent: computed on each call, so it follows every add, delete and replace of a region. Caching is not modelled.
- The Litematica subversion, Minecraft data version, and the remaining region-reading steps of `Schematic.from_nbt` are left out, with the file formats.
