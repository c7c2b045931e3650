/** The type database of lib/typelib: built-in ids, struct entries and the list with its id index. */
module TypeDatabase {

  import opened Wrappers

  const TYPEART_INT8 := 0
  const TYPEART_INT16 := 1
  const TYPEART_INT32 := 2
  const TYPEART_INT64 := 3
  const TYPEART_HALF := 4
  const TYPEART_FLOAT := 5
  const TYPEART_DOUBLE := 6
  const TYPEART_FP128 := 7
  const TYPEART_X86_FP80 := 8
  const TYPEART_PPC_FP128 := 9
  const TYPEART_POINTER := 10
  const TYPEART_NUM_VALID_IDS := TYPEART_POINTER + 1
  const TYPEART_UNKNOWN_TYPE := 255
  const TYPEART_NUM_RESERVED_IDS := TYPEART_UNKNOWN_TYPE + 1

  const BUILTIN_NAMES: seq<string> :=
    ["int8", "int16", "int32", "int64", "half", "float", "double", "float128", "x86_float80", "ppc_float128", "pointer"]

  const BUILTIN_SIZES: seq<nat> := [1, 2, 4, 8, 2, 4, 8, 16, 16, 16, 8]

  datatype StructTypeFlag = USER_DEFINED | LLVM_VECTOR

  datatype StructTypeInfo = StructTypeInfo(
    typeId: int,
    name: string,
    extent: nat,
    numMembers: nat,
    offsets: seq<nat>,
    memberTypes: seq<int>,
    arraySizes: seq<nat>,
    flag: StructTypeFlag)

  predicate IsBuiltinType(id: int) {
    TYPEART_INT8 <= id < TYPEART_NUM_VALID_IDS
  }

  predicate IsReservedType(id: int) {
    id < TYPEART_NUM_RESERVED_IDS
  }

  predicate IsStructType(id: int) {
    id >= TYPEART_NUM_RESERVED_IDS
  }

  /** The contents of a type database: the entries in registration order, and where each id is in that list. */
  datatype Database = Database(list: seq<StructTypeInfo>, index: map<int, nat>) {

    /** Every indexed id points at an entry that carries this id. */
    ghost predicate Sound() {
      forall id :: id in index ==> index[id] < |list| && list[index[id]].typeId == id && IsStructType(id)
    }

    predicate IsValid(id: int) {
      IsBuiltinType(id) || id in index
    }

    function GetStructInfo(id: int): Option<StructTypeInfo>
      requires Sound()
    {
      if id in index then Some(list[index[id]]) else None
    }

    predicate IsUserDefinedType(id: int)
      requires Sound()
    {
      var info := GetStructInfo(id);
      info.Some? && info.value.flag == USER_DEFINED
    }

    predicate IsVectorType(id: int)
      requires Sound()
    {
      var info := GetStructInfo(id);
      info.Some? && info.value.flag == LLVM_VECTOR
    }

    function GetTypeSize(id: int): nat
      requires Sound()
    {
      if IsReservedType(id) then
        if IsBuiltinType(id) then BUILTIN_SIZES[id] else 0
      else
        var info := GetStructInfo(id);
        if info.Some? then info.value.extent else 0
    }

    /** Registration appends an entry under a fresh struct id; any other id is rejected. */
    function RegisterStruct(info: StructTypeInfo): Database {
      if IsValid(info.typeId) || !IsStructType(info.typeId) then
        this
      else
        Database(list + [info], index[info.typeId := |list|])
    }

    /** List position of a registered type counted from one; zero for every other id. */
    function Rank(id: int): nat {
      if id in index then index[id] + 1 else 0
    }

    /** First byte after member i, and the place where the bytes of the next member (or the end) begin. */
    function SpanEnd(s: StructTypeInfo, i: nat): nat
      requires Sound() && i < |s.offsets| && i < |s.arraySizes| && i < |s.memberTypes|
    {
      s.offsets[i] + s.arraySizes[i] * GetTypeSize(s.memberTypes[i])
    }

    static function SpanLimit(s: StructTypeInfo, i: nat): nat
      requires i < |s.offsets|
    {
      if i + 1 < |s.offsets| then s.offsets[i + 1] else s.extent
    }

    /**
     A layout whose members are registered at most at position `bound` and laid out without overlap. A member may be
     of an unknown type, which has no size.
     */
    ghost predicate WellFormedLayout(s: StructTypeInfo, bound: nat)
      requires Sound()
    {
      && 1 <= s.numMembers == |s.offsets| == |s.memberTypes| == |s.arraySizes|
      && s.offsets[0] == 0
      && 0 < s.extent
      && (forall i :: 0 <= i < s.numMembers ==> Rank(s.memberTypes[i]) <= bound)
      && (forall i :: 0 <= i < s.numMembers ==> SpanEnd(s, i) <= SpanLimit(s, i))
    }

    /** List and index are inverse, and every entry only refers to entries before it. */
    ghost predicate WellFormed() {
      && Sound()
      && (forall p :: 0 <= p < |list| ==> list[p].typeId in index && index[list[p].typeId] == p)
      && (forall p :: 0 <= p < |list| ==> WellFormedLayout(list[p], p))
    }
  }

  const EMPTY_DATABASE := Database([], map[])

  /** The size of a type is zero exactly when the type is unknown. */
  lemma KnownTypeHasSize(db: Database, id: int)
    requires db.WellFormed()
    ensures db.IsValid(id) <==> db.GetTypeSize(id) > 0
  {
    if id in db.index {
      assert db.WellFormedLayout(db.list[db.index[id]], db.index[id]);
    }
  }

  /** The database object: two fields that registration updates together. */
  class TypeDB {
    var structInfoVec: seq<StructTypeInfo>
    var typeidToListIndex: map<int, nat>

    function View(): Database
      reads this
    {
      Database(structInfoVec, typeidToListIndex)
    }

    constructor ()
      ensures View() == EMPTY_DATABASE
    {
      structInfoVec, typeidToListIndex := [], map[];
    }

    method Clear()
      modifies this
      ensures View() == EMPTY_DATABASE
    {
      structInfoVec := [];
      typeidToListIndex := map[];
    }

    /** A fresh struct id is appended and indexed; a known id, or one below the struct ids, changes nothing. */
    method RegisterStruct(info: StructTypeInfo)
      modifies this
      ensures View() == old(View()).RegisterStruct(info)
      ensures info.typeId < 256 || info.typeId in old(typeidToListIndex) ==>
                structInfoVec == old(structInfoVec) && typeidToListIndex == old(typeidToListIndex)
      ensures info.typeId >= 256 && info.typeId !in old(typeidToListIndex) ==>
                structInfoVec == old(structInfoVec) + [info]
                && typeidToListIndex == old(typeidToListIndex)[info.typeId := |old(structInfoVec)|]
    {
      if View().IsValid(info.typeId) || !IsStructType(info.typeId) {
        return;
      }
      structInfoVec := structInfoVec + [info];
      typeidToListIndex := typeidToListIndex[info.typeId := |structInfoVec| - 1];
    }
  }
}
