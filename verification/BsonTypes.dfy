/** BSON documents as values: a document is a list of named fields, in order. */
module BsonTypes {
  import opened Bytes

  /** A byte of a C string. */
  type CChar = x: int | 1 <= x < 256 witness 1

  /** Field names, regular expressions, code with a scope: byte strings without NUL. */
  type CString = seq<CChar>

  const DOT: CChar := 0x2E

  /** Where the first dot of a name is, or its end. */
  function IndexOfDot(name: CString): (i: nat)
    ensures i <= |name| && DOT !in name[..i] && (i < |name| ==> name[i] == DOT)
  {
    if name == [] || name[0] == DOT then 0 else 1 + IndexOfDot(name[1..])
  }

  type Int32 = x: int | -0x8000_0000 <= x < 0x8000_0000

  type Int64 = x: int | -0x8000_0000_0000_0000 <= x < 0x8000_0000_0000_0000

  type UInt64 = x: int | 0 <= x < 0x1_0000_0000_0000_0000

  /** The eight bytes of an IEEE 754 double. */
  type DoubleBits = b: seq<byte> | |b| == 8 witness [0, 0, 0, 0, 0, 0, 0, 0]

  type OidBytes = b: seq<byte> | |b| == 12 witness [0, 0, 0, 0, 0, 0, 0, 0, 0, 0, 0, 0]

  type Doc = seq<Field>

  datatype Field = Field(name: CString, value: Value)

  /** The element types of `bsontypes.h`; `Double` keeps its eight bytes. */
  datatype Value =
    | MinKey
    | Double(bits: DoubleBits)
    | Str(text: seq<byte>)
    | Object(doc: Doc)
    | Array(items: Doc)
    | BinData(subtype: byte, data: seq<byte>)
    | Undefined
    | Oid(id: OidBytes)
    | Bool(b: bool)
    | Date(millis: UInt64)
    | Null
    | RegEx(pattern: CString, options: CString)
    | DBRef(ns: seq<byte>, ref: OidBytes)
    | Code(code: seq<byte>)
    | Symbol(symbol: seq<byte>)
    | CodeWScope(source: CString, scope: Doc)
    | Int(i: Int32)
    | Timestamp(stamp: UInt64)
    | Long(l: Int64)
    | MaxKey
}
