/** The descriptor tree the parser builds: one value type per entity of a `.proto` file.
    These records are defined by the crate outside the parser; here they are written from
    the way the parser fills them in. */
module Descriptor {

  /** Rust's `i32`: every number the parser produces is a signed 32-bit value. */
  newtype i32 = x: int | -0x8000_0000 <= x < 0x8000_0000

  const I32_MAX: int := 0x7fff_ffff

  /** `x.saturating_add(1)`: one more, except at `i32::MAX`, which stays put. */
  function SaturatingInc(x: i32): (r: i32)
    ensures x as int < I32_MAX ==> r as int == x as int + 1
    ensures x as int == I32_MAX ==> r == x
  {
    if x as int == I32_MAX then x else x + 1
  }

  datatype Option<+T> = None | Some(value: T) {
    function GetOr(default: T): T {
      match this
      case Some(v) => v
      case None => default
    }
  }

  datatype Syntax = Proto2 | Proto3

  datatype Rule = Optional | Repeated | Required

  datatype FieldType =
    | Int32 | Int64 | Uint32 | Uint64 | Sint32 | Sint64
    | Fixed32 | Fixed64 | Sfixed32 | Sfixed64
    | Bool | String | RefCountedString | Bytes | RefCountedBytes | Float | Double
    | Group(fields: seq<Field>)
    | Map(key: FieldType, value: FieldType)
    | MessageOrEnum(name: string)

  datatype Field = Field(
    name: string,
    rule: Rule,
    typ: FieldType,
    number: i32,
    defaultValue: Option<string>,
    packed: Option<bool>,
    deprecated: bool)

  datatype OneOf = OneOf(name: string, fields: seq<Field>)

  datatype EnumValue = EnumValue(name: string, number: i32)

  datatype Enumeration = Enumeration(name: string, values: seq<EnumValue>)

  /** Rust's `Range<i32>`, the half-open interval `start..end`. */
  datatype Range = Range(start: i32, end: i32)

  datatype Message = Message(
    name: string,
    fields: seq<Field>,
    oneofs: seq<OneOf>,
    reservedNums: seq<Range>,
    reservedNames: seq<string>,
    messages: seq<Message>,
    enums: seq<Enumeration>)

  datatype Extension = Extension(extendee: string, field: Field)

  datatype FileDescriptor = FileDescriptor(
    importPaths: seq<string>,
    package: string,
    syntax: Syntax,
    messages: seq<Message>,
    enums: seq<Enumeration>,
    extensions: seq<Extension>)

  /** `Message { name, ..Message::default() }` */
  function EmptyMessage(name: string): Message {
    Message(name, [], [], [], [], [], [])
  }

  /** `FileDescriptor::default()`: no imports, empty package, proto2. */
  function EmptyFile(): FileDescriptor {
    FileDescriptor([], "", Proto2, [], [], [])
  }
}
