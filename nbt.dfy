/**
 * The tag tree of Minecraft's NBT format, as far as litemapy looks into it.
 * Reading and writing the binary form, and compression, are not modelled.
 */
module Nbt {

  /** One NBT tag. Floating-point tags are not interpreted and do not appear here. */
  datatype Tag =
    | Byte(b: int)
    | Short(s: int)
    | Int(i: int)
    | Long(l: int)
    | String(str: string)
    | List(items: seq<Tag>)
    | Compound(entries: map<string, Tag>)
    | LongArray(longs: seq<int>)

  /** A compound tag's contents: tags by name. */
  type Compound = map<string, Tag>

  /** Whether `t` is one of the integer tags that Python's `int(t)` reads. */
  predicate IsInteger(t: Tag)
  {
    t.Byte? || t.Short? || t.Int? || t.Long?
  }

  /** `int(t)` for an integer tag. */
  function IntegerValue(t: Tag): (v: int)
    requires IsInteger(t)
    ensures t == Byte(v) || t == Short(v) || t == Int(v) || t == Long(v)
  {
    match t
    case Byte(b) => b
    case Short(s) => s
    case Int(i) => i
    case Long(l) => l
  }
}
