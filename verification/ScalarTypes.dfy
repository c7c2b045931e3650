/** The scalar types of LLVM: their built-in ids, and the sizes a data layout for 64-bit x86 gives them. */
module ScalarTypes {
  import opened TypeDatabase

  /** An integer type of any width, a floating-point type, or a pointer to anything. */
  datatype ScalarKind = Int(bits: nat) | Half | Float | Double | FP128 | X86_FP80 | PPC_FP128 | Pointer

  /** Integer types of other widths have no id. */
  predicate HasId(kind: ScalarKind) {
    kind.Int? ==> kind.bits in {8, 16, 32, 64}
  }

  /** The numbers that the public interface documents. */
  function InterfaceId(kind: ScalarKind): int
    requires HasId(kind)
  {
    match kind
    case Int(bits) => if bits == 8 then 0 else if bits == 16 then 1 else if bits == 32 then 2 else 3
    case Half => 4
    case Float => 5
    case Double => 6
    case FP128 => 7
    case X86_FP80 => 8
    case PPC_FP128 => 9
    case Pointer => 10
  }

  function InterfaceName(kind: ScalarKind): string
    requires HasId(kind)
  {
    match kind
    case Int(bits) => if bits == 8 then "int8" else if bits == 16 then "int16" else if bits == 32 then "int32" else "int64"
    case Half => "half"
    case Float => "float"
    case Double => "double"
    case FP128 => "float128"
    case X86_FP80 => "x86_float80"
    case PPC_FP128 => "ppc_float128"
    case Pointer => "pointer"
  }

  /** Width of the value in bits. */
  function Bits(kind: ScalarKind): nat {
    match kind
    case Int(bits) => bits
    case Half => 16
    case Float => 32
    case Double => 64
    case X86_FP80 => 80
    case FP128 => 128
    case PPC_FP128 => 128
    case Pointer => 64
  }

  /** Bytes a value takes in memory; an integer of odd width takes at least these. The 80-bit float fills 16. */
  function AllocSize(kind: ScalarKind): nat {
    if kind == X86_FP80 then 16 else (Bits(kind) + 7) / 8
  }

  /** get_builtin_typeid on a scalar: the unknown type for an integer of another width. */
  function BuiltinTypeId(kind: ScalarKind): (id: int)
    ensures HasId(kind) ==> id == InterfaceId(kind) && IsBuiltinType(id)
    ensures !HasId(kind) ==> id == TYPEART_UNKNOWN_TYPE
  {
    match kind
    case Int(bits) =>
      if bits == 8 then TYPEART_INT8
      else if bits == 16 then TYPEART_INT16
      else if bits == 32 then TYPEART_INT32
      else if bits == 64 then TYPEART_INT64
      else TYPEART_UNKNOWN_TYPE
    case Half => TYPEART_HALF
    case Float => TYPEART_FLOAT
    case Double => TYPEART_DOUBLE
    case FP128 => TYPEART_FP128
    case X86_FP80 => TYPEART_X86_FP80
    case PPC_FP128 => TYPEART_PPC_FP128
    case Pointer => TYPEART_POINTER
  }

  /** Size of a vector element: the width in bits divided by eight, ten bytes for the 80-bit float. */
  function ScalarBytes(kind: ScalarKind): nat {
    Bits(kind) / 8
  }

  /** The database gives every scalar the size and the name that its type has. */
  lemma BuiltinTables(kind: ScalarKind)
    requires HasId(kind)
    ensures BUILTIN_SIZES[InterfaceId(kind)] == AllocSize(kind) > 0
    ensures BUILTIN_NAMES[InterfaceId(kind)] == InterfaceName(kind)
  {
  }

  lemma IdTellsKind(a: ScalarKind, b: ScalarKind)
    requires HasId(a) && HasId(b) && InterfaceId(a) == InterfaceId(b)
    ensures a == b
  {
  }

  lemma ElementBytes(kind: ScalarKind)
    requires HasId(kind)
    ensures ScalarBytes(kind) == AllocSize(kind) <==> kind != X86_FP80
    ensures ScalarBytes(kind) <= AllocSize(kind)
  {
  }
}
