/** Types of the language that the compiler's back half consults, and the
    width/signedness table of its eight integer types. */
module Types {

  datatype Option<+T> = None | Some(value: T)

  datatype Type =
    | Unit | Bool
    | I8 | I16 | I32 | I64
    | U8 | U16 | U32 | U64
    | F64
    | Str
    | List(element: Type)
    | Slice(element: Type)
    | Array(element: Type, length: nat)
    | Ref(isMutable: bool, inner: Type)
    | Named(name: string)
    | Fn
    | Ptr(element: Type)
  {
    function Kind(): Option<IntKind> {
      match this
      case I8 => Some(IntKind(8, true))
      case I16 => Some(IntKind(16, true))
      case I32 => Some(IntKind(32, true))
      case I64 => Some(IntKind(64, true))
      case U8 => Some(IntKind(8, false))
      case U16 => Some(IntKind(16, false))
      case U32 => Some(IntKind(32, false))
      case U64 => Some(IntKind(64, false))
      case _ => None
    }
  }

  /** The width and signedness of an integer type. */
  datatype IntKind = IntKind(bits: nat, signed: bool) {
    predicate Valid() { bits == 8 || bits == 16 || bits == 32 || bits == 64 }
    predicate IsFullWidth() { bits == 64 }
  }
}
