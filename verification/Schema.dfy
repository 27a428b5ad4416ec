/** WIT types as the code generator sees them, and the wire tags. */
module Schema {
  import opened Wrappers
  import opened Bytes

  datatype Prim = S8 | U8 | S16 | U16 | S32 | U32 | S64 | U64 | F32 | F64 | Resource | Enum | Flags
  {
    function Tag(): Byte {
      match this
      case S8 => 0x20
      case U8 => 0x21
      case S16 => 0x22
      case U16 => 0x23
      case S32 => 0x24
      case U32 => 0x25
      case S64 => 0x26
      case U64 => 0x27
      case F32 => 0x28
      case F64 => 0x29
      case Resource => 0x2E
      case Enum => 0x12
      case Flags => 0x13
    }

    function Size(): nat {
      match this
      case S8 | U8 | Enum => 1
      case S16 | U16 => 2
      case S32 | U32 | F32 | Resource | Flags => 4
      case S64 | U64 | F64 => 8
    }
  }

  const TAG_RECORD: Byte := 0x10
  const TAG_VARIANT: Byte := 0x11
  const TAG_OPTION_NONE: Byte := 0x14
  const TAG_OPTION_SOME: Byte := 0x15
  const TAG_TUPLE: Byte := 0x16
  const TAG_LIST: Byte := 0x17
  const TAG_RESULT_OK: Byte := 0x18
  const TAG_RESULT_ERR: Byte := 0x19
  const TAG_BOOL_FALSE: Byte := 0x2A
  const TAG_BOOL_TRUE: Byte := 0x2B
  const TAG_BYTES: Byte := 0x2C
  const TAG_STRING: Byte := 0x2D

  /** A type expression with every named record and variant expanded in place; the
      generator rejects cyclic declarations, so the expansion is finite. */
  datatype Ty =
    | Text
    | Boolean
    | Scalar(prim: Prim)
    | List(elem: Ty)
    | Opt(inner: Ty)
    | Res(ok: Option<Ty>, err: Option<Ty>)
    | Tuple(elems: seq<Ty>)
    | Record(fieldNames: seq<string>, fields: seq<Ty>)
    | Variant(caseNames: seq<string>, payloads: seq<Option<Ty>>)
    | Alias(target: Ty)
    | Borrow(referent: Ty)

  /** The type behind aliases and borrows. */
  function Unwrap(t: Ty): Ty {
    match t
    case Alias(u) => Unwrap(u)
    case Borrow(u) => Unwrap(u)
    case _ => t
  }

  predicate IsListOfU8(elem: Ty) {
    Unwrap(elem) == Scalar(U8)
  }
}
