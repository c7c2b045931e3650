/**
 Type registration (lib/passes/typegen): a recursive, memoised translation of LLVM types to database entries.
 Ids are reserved before the members are visited, entries are pushed after them.
 */
module TypeGen {
  import opened Wrappers
  import opened TypeDatabase
  import opened ScalarTypes

  /**
   LLVM types with the data layout's offsets and sizes written into them. A pointer is a scalar whatever it
   points to, so the type graph is a tree.
   */
  datatype Type =
    | Scalar(kind: ScalarKind)
    | Vector(elem: ScalarKind, n: nat, bytes: nat)
    | Struct(name: string, fields: seq<Field>, size: nat)
    | Array(len: nat, elemType: Type)
    | Other

  datatype Field = Field(ty: Type, offset: nat)

  // ----- Types -----

  function TypeNodes(ty: Type): nat {
    match ty
    case Struct(_, fields, _) => 1 + FieldNodes(fields)
    case Array(_, elemType) => 1 + TypeNodes(elemType)
    case _ => 1
  }

  function FieldNodes(fields: seq<Field>): nat {
    if fields == [] then 0 else
      FieldNodes(fields[..|fields| - 1]) + NodesOfField(fields[|fields| - 1])
  }

  function NodesOfField(field: Field): nat {
    TypeNodes(field.ty)
  }

  lemma {:induction false} FieldIsSmaller(fields: seq<Field>, i: nat)
    requires i < |fields|
    ensures TypeNodes(fields[i].ty) <= FieldNodes(fields)
    decreases |fields|
  {
    if i < |fields| - 1 {
      FieldIsSmaller(fields[..|fields| - 1], i);
    }
  }

  function FlattenedLength(ty: Type): nat {
    if ty.Array? then ty.len * FlattenedLength(ty.elemType) else 1
  }

  function FlattenedElement(ty: Type): (e: Type)
    ensures !e.Array? && TypeNodes(e) <= TypeNodes(ty)
  {
    if ty.Array? then FlattenedElement(ty.elemType) else ty
  }

  /** The type of member i with array dimensions removed; it has fewer nodes than the struct. */
  function MemberType(ty: Type, i: nat): (e: Type)
    requires ty.Struct? && i < |ty.fields|
    ensures TypeNodes(e) < TypeNodes(ty)
  {
    FieldIsSmaller(ty.fields, i);
    FlattenedElement(ty.fields[i].ty)
  }

  /** The size in bytes, for leaves without an id a lower bound. */
  function SizeOf(ty: Type): nat {
    match ty
    case Scalar(kind) => AllocSize(kind)
    case Vector(_, _, bytes) => bytes
    case Struct(_, _, size) => size
    case Array(len, elemType) => len * SizeOf(elemType)
    case Other => 0
  }

  ghost predicate FieldFits(fields: seq<Field>, size: nat, i: nat)
    requires i < |fields|
  {
    fields[i].offset + SizeOf(fields[i].ty) <= if i + 1 < |fields| then fields[i + 1].offset else size
  }

  /** Known leaves, and struct and vector layouts as a data layout makes them: in order, disjoint, inside. */
  ghost predicate Supported(ty: Type) {
    match ty
    case Scalar(kind) => HasId(kind)
    case Vector(elem, n, bytes) =>
      HasId(elem) && elem != X86_FP80 && 0 < n && n * ScalarBytes(elem) <= bytes
    case Struct(_, fields, size) =>
      && 0 < |fields| && fields[0].offset == 0 && 0 < size
      && (forall i :: 0 <= i < |fields| ==> Supported(fields[i].ty))
      && (forall i :: 0 <= i < |fields| ==> FieldFits(fields, size, i))
    case Array(_, elemType) => Supported(elemType)
    case Other => false
  }

  /**
   What a data layout promises for every type, with or without an id: fields in order, disjoint and inside. Leaves
   without an id are allowed. Only vectors of the 80-bit float are not: their size and their elements' disagree.
   */
  ghost predicate LaidOut(ty: Type) {
    match ty
    case Vector(elem, n, bytes) =>
      HasId(elem) ==> elem != X86_FP80 && 0 < n && n * ScalarBytes(elem) <= bytes
    case Struct(_, fields, size) =>
      && 0 < |fields| && fields[0].offset == 0 && 0 < size
      && (forall i :: 0 <= i < |fields| ==> LaidOut(fields[i].ty))
      && (forall i :: 0 <= i < |fields| ==> FieldFits(fields, size, i))
    case Array(_, elemType) => LaidOut(elemType)
    case _ => true
  }

  lemma {:induction false} SupportedIsLaidOut(ty: Type)
    requires Supported(ty)
    ensures LaidOut(ty)
  {
    match ty
    case Struct(_, fields, _) =>
      forall i | 0 <= i < |fields| ensures LaidOut(fields[i].ty) {
        SupportedIsLaidOut(fields[i].ty);
      }
    case Array(_, elemType) => SupportedIsLaidOut(elemType);
    case _ =>
  }

  lemma {:induction false} FlattenedSize(ty: Type)
    ensures FlattenedLength(ty) * SizeOf(FlattenedElement(ty)) == SizeOf(ty)
    ensures Supported(ty) ==> Supported(FlattenedElement(ty))
    ensures LaidOut(ty) ==> LaidOut(FlattenedElement(ty))
  {
    if ty.Array? {
      FlattenedSize(ty.elemType);
      MulAssoc(ty.len, FlattenedLength(ty.elemType), SizeOf(FlattenedElement(ty)));
    }
  }

  lemma MulAssoc(a: nat, b: nat, c: nat)
    ensures (a * b) * c == a * (b * c)
  {
  }

  // ----- Names -----

  predicate Named(ty: Type) {
    ty.Struct? || (ty.Vector? && HasId(ty.elem))
  }

  function Digit(d: nat): char
    requires d < 10
  {
    '0' + d as char
  }

  function Decimal(n: nat): string {
    if n < 10 then [Digit(n)] else Decimal(n / 10) + [Digit(n % 10)]
  }

  predicate Digits(text: string) {
    text != "" && forall i :: 0 <= i < |text| ==> '0' <= text[i] <= '9'
  }

  /** The number that decimal digits stand for. */
  function Value(text: string): nat
    requires text == "" || Digits(text)
  {
    if text == "" then 0 else 10 * Value(text[..|text| - 1]) + (text[|text| - 1] as int - '0' as int)
  }

  /** The decimal text of a number stands for it, without leading zeros. */
  lemma {:induction false} DecimalValue(n: nat)
    ensures Digits(Decimal(n)) && Value(Decimal(n)) == n
    ensures n > 0 ==> Decimal(n)[0] != '0'
  {
    if n >= 10 {
      DecimalValue(n / 10);
      assert Decimal(n)[..|Decimal(n)| - 1] == Decimal(n / 10);
    }
  }

  function VectorName(elem: ScalarKind, n: nat): string
    requires HasId(elem)
  {
    "vec" + Decimal(n) + ":" + BUILTIN_NAMES[BuiltinTypeId(elem)]
  }

  function NameOf(ty: Type): string
    requires Named(ty)
  {
    if ty.Struct? then ty.name else VectorName(ty.elem, ty.n)
  }

  // ----- The manager as a value -----

  datatype Manager = Manager(db: Database, structMap: map<string, int>, structCount: nat)

  const EMPTY_MANAGER := Manager(EMPTY_DATABASE, map[], 0)

  /** StructTypeHandler::getID: none for a new name, and the unknown type for a name of something else. */
  function StructID(m: Manager, name: string): (id: Option<int>)
    requires m.db.Sound()
    ensures id.None? <==> name !in m.structMap
    ensures id.Some? && m.db.IsUserDefinedType(m.structMap[name]) ==> id.value == m.structMap[name]
    ensures id.Some? && !m.db.IsUserDefinedType(m.structMap[name]) ==> id.value == TYPEART_UNKNOWN_TYPE
  {
    if name in m.structMap then
      if m.db.IsUserDefinedType(m.structMap[name]) then Some(m.structMap[name]) else Some(TYPEART_UNKNOWN_TYPE)
    else None
  }

  /** VectorTypeHandler::getID: likewise, and the unknown type for elements without an id. */
  function VectorID(m: Manager, elem: ScalarKind, n: nat): (id: Option<int>)
    requires m.db.Sound()
    ensures !HasId(elem) ==> id == Some(TYPEART_UNKNOWN_TYPE)
    ensures HasId(elem) ==> (id.None? <==> VectorName(elem, n) !in m.structMap)
    ensures HasId(elem) && id.Some? && m.db.IsVectorType(m.structMap[VectorName(elem, n)]) ==>
              id.value == m.structMap[VectorName(elem, n)]
    ensures HasId(elem) && id.Some? && !m.db.IsVectorType(m.structMap[VectorName(elem, n)]) ==>
              id.value == TYPEART_UNKNOWN_TYPE
  {
    if BuiltinTypeId(elem) == TYPEART_UNKNOWN_TYPE then Some(TYPEART_UNKNOWN_TYPE)
    else
      var name := VectorName(elem, n);
      if name in m.structMap then
        if m.db.IsVectorType(m.structMap[name]) then Some(m.structMap[name]) else Some(TYPEART_UNKNOWN_TYPE)
      else None
  }

  /** The id of a type without registering anything. */
  function GetTypeID(m: Manager, ty: Type): int
    requires m.db.Sound()
  {
    match ty
    case Scalar(kind) => BuiltinTypeId(kind)
    case Vector(elem, n, _) =>
      var id := VectorID(m, elem, n);
      if id.Some? then id.value else TYPEART_UNKNOWN_TYPE
    case Struct(name, _, _) =>
      var id := StructID(m, name);
      if id.Some? then id.value else TYPEART_UNKNOWN_TYPE
    case _ => TYPEART_UNKNOWN_TYPE
  }

  function VectorInfo(id: int, elem: ScalarKind, n: nat, bytes: nat): StructTypeInfo
    requires HasId(elem)
  {
    var usable := n * ScalarBytes(elem);
    if bytes > usable then
      StructTypeInfo(id, VectorName(elem, n), bytes, 2, [0, usable], [BuiltinTypeId(elem), TYPEART_INT8],
                     [n, bytes - usable], LLVM_VECTOR)
    else
      StructTypeInfo(id, VectorName(elem, n), bytes, 1, [0], [BuiltinTypeId(elem)], [n], LLVM_VECTOR)
  }

  /** Offsets and flattened array lengths of the first k fields. */
  function Offsets(ty: Type, k: nat): (s: seq<nat>)
    requires ty.Struct? && k <= |ty.fields|
  {
    seq(k, i requires 0 <= i < k => ty.fields[i].offset)
  }

  function Lengths(ty: Type, k: nat): (s: seq<nat>)
    requires ty.Struct? && k <= |ty.fields|
  {
    seq(k, i requires 0 <= i < k => FlattenedLength(ty.fields[i].ty))
  }

  lemma NextField(ty: Type, k: nat)
    requires ty.Struct? && k < |ty.fields|
    ensures Offsets(ty, k + 1) == Offsets(ty, k) + [ty.fields[k].offset]
    ensures Lengths(ty, k + 1) == Lengths(ty, k) + [FlattenedLength(ty.fields[k].ty)]
  {
  }

  function StructInfo(id: int, ty: Type, memberIds: seq<int>): StructTypeInfo
    requires ty.Struct? && |memberIds| == |ty.fields|
  {
    var n := |ty.fields|;
    StructTypeInfo(id, ty.name, ty.size, n, Offsets(ty, n), memberIds, Lengths(ty, n), USER_DEFINED)
  }

  function Reserved(m: Manager): (Manager, int) {
    (m.(structCount := m.structCount + 1), TYPEART_NUM_RESERVED_IDS + m.structCount)
  }

  /** Push a finished entry and name it; an existing name keeps its id. */
  function Publish(m: Manager, info: StructTypeInfo): (r: Manager)
    requires m.db.Sound()
    ensures r.db.Sound()
  {
    m.(db := m.db.RegisterStruct(info),
       structMap := if info.name in m.structMap then m.structMap else m.structMap[info.name := info.typeId])
  }

  function RegisterType(m: Manager, ty: Type): (r: (Manager, int))
    requires m.db.Sound()
    ensures r.0.db.Sound()
    decreases TypeNodes(ty), 1, 0
  {
    match ty
    case Scalar(kind) => (m, BuiltinTypeId(kind))
    case Vector(elem, n, bytes) =>
      var known := VectorID(m, elem, n);
      if known.Some? then (m, known.value) else
        var (reserved, id) := Reserved(m);
        (Publish(reserved, VectorInfo(id, elem, n, bytes)), id)
    case Struct(name, fields, _) =>
      var known := StructID(m, name);
      if known.Some? then (m, known.value) else
        var (reserved, id) := Reserved(m);
        var (visited, memberIds) := RegisterMembers(reserved, ty, id, |fields|);
        (Publish(visited, StructInfo(id, ty, memberIds)), id)
    case _ => (m, TYPEART_UNKNOWN_TYPE)
  }

  /** Visit the first `k` members of a struct whose id is already reserved. */
  function RegisterMembers(m: Manager, ty: Type, id: int, k: nat): (r: (Manager, seq<int>))
    requires m.db.Sound() && ty.Struct? && k <= |ty.fields|
    ensures r.0.db.Sound() && |r.1| == k
    decreases TypeNodes(ty), 0, k
  {
    if k == 0 then (m, []) else
      var (before, ids) := RegisterMembers(m, ty, id, k - 1);
      var (after, memberId) := RegisterMember(before, ty, id, k - 1);
      (after, ids + [memberId])
  }

  function RegisterMember(m: Manager, ty: Type, id: int, i: nat): (r: (Manager, int))
    requires m.db.Sound() && ty.Struct? && i < |ty.fields|
    ensures r.0.db.Sound()
    decreases TypeNodes(ty), 0, 0
  {
    var member := MemberType(ty, i);
    if member.Struct? && member.name == ty.name then (m, id) else RegisterType(m, member)
  }

  function RegisterAll(m: Manager, types: seq<Type>): (r: Manager)
    requires m.db.Sound()
    ensures r.db.Sound()
  {
    if types == [] then m else RegisterType(RegisterAll(m, types[..|types| - 1]), types[|types| - 1]).0
  }

  // ----- What every registration keeps -----

  /**
   The types of a program by name. That one map covers a type says that struct names determine types: every
   named type inside it is the one the map holds under its name.
   */
  type Naming = map<string, Type>

  ghost predicate Covers(env: Naming, ty: Type)
    decreases TypeNodes(ty)
  {
    && (Named(ty) ==> NameOf(ty) in env && env[NameOf(ty)] == ty)
    && (ty.Struct? ==> forall i :: 0 <= i < |ty.fields| ==> Covers(env, MemberType(ty, i)))
  }

  /** The entry under `id` is the translation of `ty`: its member ids are those of the member types now. */
  ghost predicate Describes(m: Manager, info: StructTypeInfo, ty: Type)
    requires m.db.Sound()
  {
    Named(ty) &&
    if ty.Vector? then
      info == VectorInfo(info.typeId, ty.elem, ty.n, ty.bytes)
    else
      && |info.memberTypes| == |ty.fields|
      && info == StructInfo(info.typeId, ty, info.memberTypes)
      && forall i :: 0 <= i < |ty.fields| ==>
           info.memberTypes[i] == GetTypeID(m, MemberType(ty, i)) && Resolved(m, MemberType(ty, i))
  }

  /** Nothing about the type is left to register. */
  ghost predicate Resolved(m: Manager, ty: Type) {
    Named(ty) ==> NameOf(ty) in m.structMap
  }

  ghost predicate InUse(m: Manager, pending: map<string, int>, id: int) {
    id in m.db.index || exists n :: n in pending && pending[n] == id
  }

  /** List and index are inverse. */
  ghost predicate ListMatchesIndex(db: Database)
    requires db.Sound()
  {
    forall p :: 0 <= p < |db.list| ==> db.list[p].typeId in db.index && db.index[db.list[p].typeId] == p
  }

  /** Names and entries are inverse. */
  ghost predicate NamesMatchList(m: Manager)
    requires m.db.Sound()
  {
    && (forall n :: n in m.structMap ==>
          m.db.GetStructInfo(m.structMap[n]).Some? && m.db.GetStructInfo(m.structMap[n]).value.name == n)
    && (forall p :: 0 <= p < |m.db.list| ==>
          m.db.list[p].name in m.structMap && m.structMap[m.db.list[p].name] == m.db.list[p].typeId)
  }

  /** Every entry is the translation of its type. */
  ghost predicate EntriesDescribed(m: Manager, env: Naming)
    requires m.db.Sound()
  {
    && (forall n :: n in m.structMap ==> n in env)
    && (forall p :: 0 <= p < |m.db.list| ==> m.db.list[p].name in env && Describes(m, m.db.list[p], env[m.db.list[p].name]))
  }

  /** Entries refer to earlier entries only. */
  ghost predicate MembersEarlier(db: Database) {
    forall p, i :: 0 <= p < |db.list| && 0 <= i < |db.list[p].memberTypes| ==> db.Rank(db.list[p].memberTypes[i]) <= p
  }

  /** Ids are dense: registered and pending ones fill the reserved range; what is pending is not registered. */
  ghost predicate IdsFilled(m: Manager, pending: map<string, int>) {
    && (forall id :: InUse(m, pending, id) <==> TYPEART_NUM_RESERVED_IDS <= id < TYPEART_NUM_RESERVED_IDS + m.structCount)
    && (forall n :: n in pending ==> n !in m.structMap && pending[n] !in m.db.index)
  }

  /**
   The invariant in the middle of a registration. `pending` holds the structs whose id is reserved while their
   members are being visited; at rest it is empty.
   */
  ghost predicate Inv(m: Manager, env: Naming, pending: map<string, int>) {
    && m.db.Sound()
    && ListMatchesIndex(m.db)
    && NamesMatchList(m)
    && EntriesDescribed(m, env)
    && MembersEarlier(m.db)
    && IdsFilled(m, pending)
  }

  /** Names are the names of their types, and cover everything inside them. */
  ghost predicate ValidNaming(env: Naming) {
    forall n :: n in env ==> Named(env[n]) && NameOf(env[n]) == n && Covers(env, env[n])
  }

  /** Registered names and entries stay as they are. */
  ghost predicate Extends(m: Manager, m': Manager) {
    && m.db.list <= m'.db.list
    && (forall id :: id in m.db.index ==> id in m'.db.index && m'.db.index[id] == m.db.index[id])
    && (forall n :: n in m.structMap ==> n in m'.structMap && m'.structMap[n] == m.structMap[n])
  }

  /** Every type on the way has a name with more nodes than what is registered below it. */
  ghost predicate Above(env: Naming, pending: map<string, int>, nodes: nat) {
    forall n :: n in pending ==> n in env && TypeNodes(env[n]) > nodes
  }

  lemma EmptyInv(env: Naming)
    ensures Inv(EMPTY_MANAGER, env, map[])
  {
  }

  lemma ExtendsTransitive(a: Manager, b: Manager, c: Manager)
    requires a.db.Sound() && Extends(a, b) && Extends(b, c)
    ensures Extends(a, c)
  {
  }

  /** A resolved type has the id it is named with, in every later state. */
  lemma ResolvedIdStays(m: Manager, m': Manager, env: Naming, pending: map<string, int>, ty: Type)
    requires Inv(m, env, pending) && m'.db.Sound() && Extends(m, m') && Resolved(m, ty)
    ensures Resolved(m', ty) && GetTypeID(m', ty) == GetTypeID(m, ty)
  {
    if Named(ty) {
      var id := m.structMap[NameOf(ty)];
      assert id in m.db.index && m'.db.GetStructInfo(id) == m.db.GetStructInfo(id);
    }
  }

  /** A covered type whose name is known has the id stored under its name. */
  lemma NamedTypeId(m: Manager, env: Naming, pending: map<string, int>, ty: Type)
    requires Inv(m, env, pending) && Named(ty) && Covers(env, ty) && Resolved(m, ty)
    ensures GetTypeID(m, ty) == m.structMap[NameOf(ty)] && m.structMap[NameOf(ty)] in m.db.index
    ensures var p := m.db.index[m.structMap[NameOf(ty)]];
            m.db.list[p].name == NameOf(ty) && Describes(m, m.db.list[p], ty)
  {
    var id := m.structMap[NameOf(ty)];
    var p := m.db.index[id];
    assert m.db.list[p].name == NameOf(ty);
    assert Describes(m, m.db.list[p], env[m.db.list[p].name]);
  }

  lemma ReserveKeepsInv(m: Manager, env: Naming, pending: map<string, int>, name: string)
    requires Inv(m, env, pending) && name !in m.structMap && name !in pending
    ensures var (reserved, id) := Reserved(m);
            Inv(reserved, env, pending[name := id]) && Extends(m, reserved) && !InUse(m, pending, id)
  {
    var (reserved, id) := Reserved(m);
    assert !InUse(m, pending, id);
    var pending' := pending[name := id];
    forall i
      ensures InUse(reserved, pending', i)
         <==> TYPEART_NUM_RESERVED_IDS <= i < TYPEART_NUM_RESERVED_IDS + reserved.structCount
    {
      assert InUse(reserved, pending', i) <==> InUse(m, pending, i) || i == id by {
        if i == id { assert pending'[name] == i; }
        if n :| n in pending && pending[n] == i { assert pending'[n] == i; }
      }
    }
    DescriptionsStay(m, reserved, env, pending);
  }

  /** Entries still describe their types when the state grows. */
  lemma DescriptionsStay(m: Manager, m': Manager, env: Naming, pending: map<string, int>)
    requires Inv(m, env, pending) && m'.db.Sound() && Extends(m, m')
    ensures forall p :: 0 <= p < |m.db.list| ==> Describes(m', m.db.list[p], env[m.db.list[p].name])
  {
    forall p | 0 <= p < |m.db.list| ensures Describes(m', m.db.list[p], env[m.db.list[p].name]) {
      DescriptionStays(m, m', env, pending, m.db.list[p], env[m.db.list[p].name]);
    }
  }

  lemma DescriptionStays(m: Manager, m': Manager, env: Naming, pending: map<string, int>, info: StructTypeInfo, ty: Type)
    requires Inv(m, env, pending) && m'.db.Sound() && Extends(m, m') && Describes(m, info, ty)
    ensures Describes(m', info, ty)
  {
    if ty.Struct? {
      forall i | 0 <= i < |ty.fields|
        ensures info.memberTypes[i] == GetTypeID(m', MemberType(ty, i)) && Resolved(m', MemberType(ty, i))
      {
        ResolvedIdStays(m, m', env, pending, MemberType(ty, i));
      }
    }
  }

  /** A member id is registered or below the struct ids, so it is never one that is still reserved. */
  lemma MemberIdKnown(m: Manager, env: Naming, pending: map<string, int>, info: StructTypeInfo, ty: Type, i: nat)
    requires Inv(m, env, pending) && Describes(m, info, ty) && i < |info.memberTypes|
    ensures info.memberTypes[i] in m.db.index || IsReservedType(info.memberTypes[i])
  {
  }

  /** The id of the entry is reserved under its name. */
  ghost predicate ReservedFor(m: Manager, pending: map<string, int>, info: StructTypeInfo) {
    && info.name !in m.structMap && info.typeId !in m.db.index && IsStructType(info.typeId)
    && info.name !in pending && FreshId(pending, info.typeId)
  }

  /** A reserved id that no other pending name has. */
  ghost predicate FreshId(pending: map<string, int>, id: int) {
    forall n :: n in pending ==> pending[n] != id
  }

  lemma PublishedState(m: Manager, pending: map<string, int>, info: StructTypeInfo)
    requires m.db.Sound() && ReservedFor(m, pending, info)
    ensures var m' := Publish(m, info);
            && m'.db.list == m.db.list + [info] && m'.db.index == m.db.index[info.typeId := |m.db.list|]
            && m'.structMap == m.structMap[info.name := info.typeId] && m'.structCount == m.structCount
            && Extends(m, m')
  {
  }

  lemma PublishKeepsIds(m: Manager, pending: map<string, int>, info: StructTypeInfo)
    requires m.db.Sound() && ReservedFor(m, pending, info) && IdsFilled(m, pending[info.name := info.typeId])
    ensures IdsFilled(Publish(m, info), pending)
  {
    var m', pending' := Publish(m, info), pending[info.name := info.typeId];
    PublishedState(m, pending, info);
    assert info.name in pending' && pending'[info.name] == info.typeId;
    forall id ensures InUse(m', pending, id) <==> InUse(m, pending', id) {
      if n :| n in pending && pending[n] == id { assert n in pending' && pending'[n] == id; }
    }
    forall n | n in pending ensures n !in m'.structMap && pending[n] !in m'.db.index {
      assert n in pending' && pending'[n] == pending[n];
    }
  }

  lemma PublishKeepsEntries(m: Manager, env: Naming, pending: map<string, int>, info: StructTypeInfo)
    requires m.db.Sound() && ReservedFor(m, pending, info) && Inv(m, env, pending[info.name := info.typeId])
    requires info.name in env && Describes(m, info, env[info.name])
    ensures EntriesDescribed(Publish(m, info), env)
  {
    var m', pending' := Publish(m, info), pending[info.name := info.typeId];
    PublishedState(m, pending, info);
    DescriptionsStay(m, m', env, pending');
    DescriptionStays(m, m', env, pending', info, env[info.name]);
  }

  lemma PublishKeepsOrder(m: Manager, env: Naming, pending: map<string, int>, info: StructTypeInfo)
    requires m.db.Sound() && ReservedFor(m, pending, info) && Inv(m, env, pending[info.name := info.typeId])
    requires info.name in env && Describes(m, info, env[info.name])
    ensures MembersEarlier(Publish(m, info).db)
  {
    var m' := Publish(m, info);
    PublishedState(m, pending, info);
    forall p, i | 0 <= p < |m'.db.list| && 0 <= i < |m'.db.list[p].memberTypes|
      ensures m'.db.Rank(m'.db.list[p].memberTypes[i]) <= p
    {
      var entry := m'.db.list[p];
      MemberIdKnown(m, env, pending[info.name := info.typeId], entry, env[entry.name], i);
    }
  }

  /** Pushing the finished entry of a reserved id ends its reservation; the fresh id is never rejected. */
  lemma PublishKeepsInv(m: Manager, env: Naming, pending: map<string, int>, info: StructTypeInfo)
    requires info.name !in pending && FreshId(pending, info.typeId)
    requires Inv(m, env, pending[info.name := info.typeId])
    requires info.name in env && Describes(m, info, env[info.name])
    ensures Inv(Publish(m, info), env, pending) && Extends(m, Publish(m, info))
    ensures Publish(m, info).structMap == m.structMap[info.name := info.typeId]
    ensures Publish(m, info).db.list == m.db.list + [info]
  {
    var pending' := pending[info.name := info.typeId];
    assert info.name in pending' && pending'[info.name] == info.typeId;
    assert InUse(m, pending', info.typeId);
    PublishedState(m, pending, info);
    PublishKeepsIds(m, pending, info);
    PublishKeepsEntries(m, env, pending, info);
    PublishKeepsOrder(m, env, pending, info);
  }

  /** What a registration has to achieve, from state `m` to state `r`. */
  ghost predicate Registers(m: Manager, r: Manager, env: Naming, pending: map<string, int>, ty: Type, id: int) {
    Inv(r, env, pending) && Extends(m, r) && id == GetTypeID(r, ty) && Resolved(r, ty)
  }

  lemma ReservedIsFresh(m: Manager, env: Naming, pending: map<string, int>)
    requires Inv(m, env, pending)
    ensures FreshId(pending, Reserved(m).1)
  {
    forall n | n in pending ensures InUse(m, pending, pending[n]) {
    }
  }

  /** With the members visited, publishing the entry of a type completes its registration. */
  lemma PublishRegisters(m: Manager, visited: Manager, env: Naming, pending: map<string, int>, ty: Type, info: StructTypeInfo)
    requires m.db.Sound() && Extends(m, visited)
    requires Named(ty) && Covers(env, ty) && info.name == NameOf(ty) && info.name !in pending
    requires FreshId(pending, info.typeId) && Inv(visited, env, pending[info.name := info.typeId])
    requires Describes(visited, info, ty)
    ensures Registers(m, Publish(visited, info), env, pending, ty, info.typeId)
  {
    PublishKeepsInv(visited, env, pending, info);
    ExtendsTransitive(m, visited, Publish(visited, info));
    NamedTypeId(Publish(visited, info), env, pending, ty);
  }

  /** Registering a covered type keeps the invariant, and its id is from then on the id looked up for it. */
  lemma {:induction false} RegisterTypeKeepsInv(m: Manager, env: Naming, pending: map<string, int>, ty: Type)
    requires Inv(m, env, pending) && Covers(env, ty) && Above(env, pending, TypeNodes(ty))
    ensures Registers(m, RegisterType(m, ty).0, env, pending, ty, RegisterType(m, ty).1)
    decreases TypeNodes(ty), 2, 0
  {
    if Named(ty) && NameOf(ty) in m.structMap {
      NamedTypeId(m, env, pending, ty);
    } else if Named(ty) {
      ReserveKeepsInv(m, env, pending, NameOf(ty));
      ReservedIsFresh(m, env, pending);
      if ty.Vector? {
        NewVectorKeepsInv(m, env, pending, ty);
      } else {
        NewStructKeepsInv(m, env, pending, ty);
      }
    }
  }

  /** The name of the type is new, and its id reserved. */
  ghost predicate IsNew(m: Manager, env: Naming, pending: map<string, int>, ty: Type) {
    && m.db.Sound() && Named(ty) && NameOf(ty) !in m.structMap && NameOf(ty) !in pending && Covers(env, ty)
    && var (reserved, id) := Reserved(m); Inv(reserved, env, pending[NameOf(ty) := id]) && FreshId(pending, id)
  }

  lemma NewVectorKeepsInv(m: Manager, env: Naming, pending: map<string, int>, ty: Type)
    requires IsNew(m, env, pending, ty) && ty.Vector?
    ensures Registers(m, RegisterType(m, ty).0, env, pending, ty, RegisterType(m, ty).1)
  {
    var (reserved, id) := Reserved(m);
    PublishRegisters(m, reserved, env, pending, ty, VectorInfo(id, ty.elem, ty.n, ty.bytes));
  }

  lemma {:induction false} NewStructKeepsInv(m: Manager, env: Naming, pending: map<string, int>, ty: Type)
    requires IsNew(m, env, pending, ty) && ty.Struct? && Above(env, pending, TypeNodes(ty))
    ensures Registers(m, RegisterType(m, ty).0, env, pending, ty, RegisterType(m, ty).1)
    decreases TypeNodes(ty), 1, 0
  {
    var (reserved, id) := Reserved(m);
    var (visited, memberIds) := RegisterMembers(reserved, ty, id, |ty.fields|);
    RegisterMembersKeepsInv(reserved, env, pending[ty.name := id], ty, id, |ty.fields|);
    ExtendsTransitive(m, reserved, visited);
    StructRegistered(m, visited, env, pending, ty, id, memberIds);
  }

  lemma StructRegistered(m: Manager, visited: Manager, env: Naming, pending: map<string, int>, ty: Type, id: int, ids: seq<int>)
    requires m.db.Sound() && Extends(m, visited) && ty.Struct? && |ids| == |ty.fields|
    requires Covers(env, ty) && ty.name !in pending && FreshId(pending, id) && Inv(visited, env, pending[ty.name := id])
    requires forall i :: 0 <= i < |ids| ==> ids[i] == GetTypeID(visited, MemberType(ty, i)) && Resolved(visited, MemberType(ty, i))
    ensures Registers(m, Publish(visited, StructInfo(id, ty, ids)), env, pending, ty, id)
  {
    PublishRegisters(m, visited, env, pending, ty, StructInfo(id, ty, ids));
  }

  lemma {:induction false} RegisterMembersKeepsInv(m: Manager, env: Naming, pending: map<string, int>, ty: Type, id: int, k: nat)
    requires ty.Struct? && k <= |ty.fields|
    requires Inv(m, env, pending) && Covers(env, ty) && Above(env, pending, TypeNodes(ty) - 1)
    ensures var (m', ids) := RegisterMembers(m, ty, id, k);
            Inv(m', env, pending) && Extends(m, m')
            && forall i :: 0 <= i < k ==> ids[i] == GetTypeID(m', MemberType(ty, i)) && Resolved(m', MemberType(ty, i))
    decreases TypeNodes(ty), 0, k
  {
    if k > 0 {
      RegisterMembersKeepsInv(m, env, pending, ty, id, k - 1);
      var (before, ids) := RegisterMembers(m, ty, id, k - 1);
      var member := MemberType(ty, k - 1);
      assert Covers(env, member);
      SameNameBranchIsDead(env, ty, k - 1);
      RegisterTypeKeepsInv(before, env, pending, member);
      var after := RegisterType(before, member).0;
      ExtendsTransitive(m, before, after);
      forall i | 0 <= i < k - 1
        ensures ids[i] == GetTypeID(after, MemberType(ty, i)) && Resolved(after, MemberType(ty, i))
      {
        ResolvedIdStays(before, after, env, pending, MemberType(ty, i));
      }
    }
  }

  /** A member struct never carries the name of the struct around it. */
  lemma SameNameBranchIsDead(env: Naming, ty: Type, i: nat)
    requires ty.Struct? && i < |ty.fields| && Covers(env, ty)
    ensures !(MemberType(ty, i).Struct? && MemberType(ty, i).name == ty.name)
  {
    assert Covers(env, MemberType(ty, i));
  }

  ghost predicate CoversAll(env: Naming, types: seq<Type>) {
    forall i :: 0 <= i < |types| ==> Covers(env, types[i])
  }

  /** At rest: the invariant with nothing pending. */
  ghost predicate AtRest(m: Manager, env: Naming) {
    Inv(m, env, map[])
  }

  lemma {:induction false} RegisterAllKeepsInv(m: Manager, env: Naming, types: seq<Type>)
    requires AtRest(m, env) && CoversAll(env, types)
    ensures AtRest(RegisterAll(m, types), env) && Extends(m, RegisterAll(m, types))
    decreases |types|
  {
    if types != [] {
      var init := types[..|types| - 1];
      RegisterAllKeepsInv(m, env, init);
      RegisterTypeKeepsInv(RegisterAll(m, init), env, map[], types[|types| - 1]);
      ExtendsTransitive(m, RegisterAll(m, init), RegisterAll(m, types));
    }
  }

  // ----- What holds at rest -----

  /** Registering a type again changes nothing, at any later time, and lookup and registration agree. */
  lemma RegistrationIsStable(m: Manager, env: Naming, ty: Type, later: seq<Type>)
    requires AtRest(m, env) && Covers(env, ty) && CoversAll(env, later)
    ensures var (m1, id) := RegisterType(m, ty);
            var m2 := RegisterAll(m1, later);
            GetTypeID(m2, ty) == id && RegisterType(m2, ty) == (m2, id)
  {
    var (m1, id) := RegisterType(m, ty);
    RegisterTypeKeepsInv(m, env, map[], ty);
    RegisterAllKeepsInv(m1, env, later);
    var m2 := RegisterAll(m1, later);
    ResolvedIdStays(m1, m2, env, map[], ty);
    if Named(ty) {
      NamedTypeId(m2, env, map[], ty);
    }
  }

  /** Arrays, other types, and scalars and vectors of other integer widths have no id of their own. */
  predicate TypeHasId(ty: Type) {
    Named(ty) || (ty.Scalar? && HasId(ty.kind))
  }

  /** A type without an id is the unknown type, whether it is looked up or registered, and registers nothing. */
  lemma UnknownIffNoId(m: Manager, env: Naming, pending: map<string, int>, ty: Type)
    requires Inv(m, env, pending) && Covers(env, ty) && Resolved(m, ty)
    ensures GetTypeID(m, ty) == TYPEART_UNKNOWN_TYPE <==> !TypeHasId(ty)
    ensures !TypeHasId(ty) ==> RegisterType(m, ty) == (m, TYPEART_UNKNOWN_TYPE)
  {
    if Named(ty) {
      NamedTypeId(m, env, pending, ty);
    }
  }

  /** A scalar has the id of the public interface, in every state. */
  lemma ScalarIsInterfaceId(m: Manager, kind: ScalarKind)
    requires m.db.Sound() && HasId(kind)
    ensures GetTypeID(m, Scalar(kind)) == InterfaceId(kind) && RegisterType(m, Scalar(kind)) == (m, InterfaceId(kind))
  {
  }

  /** A new name gets the next id, before any name inside it. */
  lemma NewTypeGetsNextId(m: Manager, ty: Type)
    requires m.db.Sound() && Named(ty) && NameOf(ty) !in m.structMap
    ensures RegisterType(m, ty).1 == 256 + m.structCount
  {
  }

  /** The id of a type tells the type. */
  lemma IdTellsType(m: Manager, env: Naming, pending: map<string, int>, s: Type, t: Type)
    requires Inv(m, env, pending) && Covers(env, s) && Covers(env, t) && Resolved(m, s) && Resolved(m, t)
    requires TypeHasId(s) && TypeHasId(t) && GetTypeID(m, s) == GetTypeID(m, t)
    ensures s == t
  {
    if Named(s) {
      NamedTypeId(m, env, pending, s);
    }
    if Named(t) {
      NamedTypeId(m, env, pending, t);
    }
    if s.Scalar? && t.Scalar? {
      IdTellsKind(s.kind, t.kind);
    }
  }

  /** The first `count` struct ids. */
  function IdRange(count: nat): (ids: set<int>)
    ensures |ids| == count
    ensures forall id :: id in ids <==> TYPEART_NUM_RESERVED_IDS <= id < TYPEART_NUM_RESERVED_IDS + count
  {
    if count == 0 then {} else IdRange(count - 1) + {TYPEART_NUM_RESERVED_IDS + count - 1}
  }

  lemma IdsFillRange(m: Manager, env: Naming)
    requires AtRest(m, env)
    ensures m.db.index.Keys == IdRange(m.structCount)
  {
    forall id ensures id in m.db.index.Keys <==> id in IdRange(m.structCount) {
      assert InUse(m, map[], id) <==> id in m.db.index;
    }
  }

  lemma ListIsCounted(db: Database, count: nat)
    requires db.Sound() && ListMatchesIndex(db) && db.index.Keys == IdRange(count)
    ensures |db.list| == count
  {
    IdsAreCounted(db, |db.list|);
    assert forall id :: id in IdsOf(db, |db.list|) <==> id in db.index.Keys;
    assert IdsOf(db, |db.list|) == db.index.Keys;
  }

  lemma NamesOneToOne(m: Manager)
    requires m.db.Sound() && NamesMatchList(m)
    ensures forall n, n' :: n in m.structMap && n' in m.structMap && m.structMap[n] == m.structMap[n'] ==> n == n'
  {
  }

  lemma EntriesOneToOne(db: Database)
    requires db.Sound() && ListMatchesIndex(db)
    ensures forall p, q :: 0 <= p < |db.list| && 0 <= q < |db.list| && db.list[p].typeId == db.list[q].typeId ==> p == q
  {
  }

  /** Ids are exactly the range from 256 on, one per entry, and names are one-to-one with ids. */
  lemma IdsAreDense(m: Manager, env: Naming)
    requires AtRest(m, env)
    ensures m.db.index.Keys == IdRange(m.structCount)
    ensures |m.db.list| == |m.structMap| == m.structCount
    ensures forall n, n' :: n in m.structMap && n' in m.structMap && m.structMap[n] == m.structMap[n'] ==> n == n'
    ensures forall p, q :: 0 <= p < |m.db.list| && 0 <= q < |m.db.list| && m.db.list[p].typeId == m.db.list[q].typeId ==> p == q
  {
    IdsFillRange(m, env);
    ListIsCounted(m.db, m.structCount);
    NamesRestored(m);
    NamesOneToOne(m);
    EntriesOneToOne(m.db);
  }

  // ----- Store and load -----

  /** TypeIO::store writes the entries in list order; the YAML text in between is not modelled. */
  function Store(m: Manager): seq<StructTypeInfo> {
    m.db.list
  }

  /** TypeIO::load: clear the database and register every entry. */
  function LoadDatabase(entries: seq<StructTypeInfo>): (db: Database)
    ensures db.Sound()
  {
    if entries == [] then EMPTY_DATABASE
    else LoadDatabase(entries[..|entries| - 1]).RegisterStruct(entries[|entries| - 1])
  }

  /** TypeManager::load: names from the list, the first entry of a name winning. */
  function NamesOf(entries: seq<StructTypeInfo>): map<string, int> {
    if entries == [] then map[] else
      var before := NamesOf(entries[..|entries| - 1]);
      var last := entries[|entries| - 1];
      if last.name in before then before else before[last.name := last.typeId]
  }

  /** Entry i is the first of its name. */
  predicate FirstOfName(entries: seq<StructTypeInfo>, i: nat)
    requires i < |entries|
  {
    forall j :: 0 <= j < i ==> entries[j].name != entries[i].name
  }

  /** Whatever a file holds: every name in it is known, with the id of the first entry of that name. */
  lemma {:induction false} NamesAreFirst(entries: seq<StructTypeInfo>)
    ensures forall i :: 0 <= i < |entries| ==> entries[i].name in NamesOf(entries)
    ensures forall i :: 0 <= i < |entries| && FirstOfName(entries, i) ==> NamesOf(entries)[entries[i].name] == entries[i].typeId
    ensures forall n :: n in NamesOf(entries) ==> exists i :: 0 <= i < |entries| && entries[i].name == n
    decreases |entries|
  {
    if entries != [] {
      var init, last := entries[..|entries| - 1], |entries| - 1;
      NamesAreFirst(init);
      forall i | 0 <= i < last && FirstOfName(entries, i) ensures FirstOfName(init, i) {
      }
      forall n | n in NamesOf(entries) ensures exists i :: 0 <= i < |entries| && entries[i].name == n {
        if n in NamesOf(init) {
          var i :| 0 <= i < |init| && init[i].name == n;
          assert entries[i].name == n;
        } else {
          assert entries[last].name == n;
        }
      }
    }
  }

  function Load(entries: seq<StructTypeInfo>): (m: Manager)
    ensures m.db.Sound()
    ensures forall n :: n in m.structMap <==> exists i :: 0 <= i < |m.db.list| && m.db.list[i].name == n
    ensures forall i :: 0 <= i < |m.db.list| && FirstOfName(m.db.list, i) ==> m.structMap[m.db.list[i].name] == m.db.list[i].typeId
    ensures m.structCount == |m.structMap|
  {
    NamesAreFirst(LoadDatabase(entries).list);
    var db := LoadDatabase(entries);
    Manager(db, NamesOf(db.list), |NamesOf(db.list)|)
  }

  /** `part` is the database as it was after the first k entries. */
  ghost predicate AfterEntries(db: Database, part: Database, k: nat)
    requires db.Sound() && k <= |db.list|
  {
    && part.list == db.list[..k]
    && (forall id :: id in part.index <==> id in db.index && db.index[id] < k)
    && (forall id :: id in part.index ==> part.index[id] == db.index[id])
  }

  lemma RegisterNextEntry(db: Database, part: Database, k: nat)
    requires db.Sound() && ListMatchesIndex(db) && k < |db.list| && AfterEntries(db, part, k)
    ensures AfterEntries(db, part.RegisterStruct(db.list[k]), k + 1)
  {
    var id := db.list[k].typeId;
    assert id in db.index && db.index[id] == k;
    assert db.list[..k + 1] == db.list[..k] + [db.list[k]];
    forall i | i in db.index && db.index[i] == k ensures i == id {
      assert db.list[db.index[i]].typeId == i;
    }
  }

  /** Loading the first k entries gives the database as it was after k entries. */
  lemma {:induction false} LoadRestoresDatabase(db: Database, k: nat)
    requires db.Sound() && ListMatchesIndex(db) && k <= |db.list|
    ensures AfterEntries(db, LoadDatabase(db.list[..k]), k)
    decreases k
  {
    if k > 0 {
      LoadRestoresDatabase(db, k - 1);
      assert db.list[..k][..k - 1] == db.list[..k - 1];
      RegisterNextEntry(db, LoadDatabase(db.list[..k - 1]), k - 1);
    }
  }

  /** The ids of the first k entries. */
  function IdsOf(db: Database, k: nat): set<int>
    requires k <= |db.list|
  {
    if k == 0 then {} else IdsOf(db, k - 1) + {db.list[k - 1].typeId}
  }

  lemma {:induction false} IdsAreCounted(db: Database, k: nat)
    requires db.Sound() && ListMatchesIndex(db) && k <= |db.list|
    ensures |IdsOf(db, k)| == k
    ensures forall id :: id in IdsOf(db, k) <==> id in db.index && db.index[id] < k
    decreases k
  {
    if k > 0 {
      IdsAreCounted(db, k - 1);
    }
  }

  /** `names` are the names as they were after the first k entries. */
  ghost predicate AfterNames(m: Manager, names: map<string, int>, k: nat)
    requires m.db.Sound()
  {
    && (forall n :: n in names <==> n in m.structMap && m.db.Rank(m.structMap[n]) <= k)
    && (forall n :: n in names ==> names[n] == m.structMap[n])
  }

  lemma NameNextEntry(m: Manager, names: map<string, int>, k: nat)
    requires m.db.Sound() && ListMatchesIndex(m.db) && NamesMatchList(m) && k < |m.db.list| && AfterNames(m, names, k)
    ensures m.db.list[k].name !in names
    ensures AfterNames(m, names[m.db.list[k].name := m.db.list[k].typeId], k + 1)
  {
    var last := m.db.list[k];
    assert m.structMap[last.name] == last.typeId && m.db.Rank(last.typeId) == k + 1;
  }

  lemma OneMoreName(names: map<string, int>, name: string, id: int)
    requires name !in names
    ensures |names[name := id]| == |names| + 1
  {
    assert names[name := id].Keys == names.Keys + {name};
    assert |names[name := id].Keys| == |names[name := id]| && |names.Keys| == |names|;
  }

  lemma {:induction false} LoadRestoresNames(m: Manager, k: nat)
    requires m.db.Sound() && ListMatchesIndex(m.db) && NamesMatchList(m) && k <= |m.db.list|
    ensures AfterNames(m, NamesOf(m.db.list[..k]), k)
    decreases k
  {
    if k > 0 {
      LoadRestoresNames(m, k - 1);
      NameNextEntry(m, NamesOf(m.db.list[..k - 1]), k - 1);
      NamesOfNext(m.db.list, k - 1);
    }
  }

  lemma NamesOfNext(list: seq<StructTypeInfo>, k: nat)
    requires k < |list| && list[k].name !in NamesOf(list[..k])
    ensures NamesOf(list[..k + 1]) == NamesOf(list[..k])[list[k].name := list[k].typeId]
  {
    assert list[..k + 1][..k] == list[..k];
  }

  lemma {:induction false} NamesAreCounted(m: Manager, k: nat)
    requires m.db.Sound() && ListMatchesIndex(m.db) && NamesMatchList(m) && k <= |m.db.list|
    ensures |NamesOf(m.db.list[..k])| == k
    decreases k
  {
    if k > 0 {
      NamesAreCounted(m, k - 1);
      LoadRestoresNames(m, k - 1);
      NameNextEntry(m, NamesOf(m.db.list[..k - 1]), k - 1);
      NamesOfNext(m.db.list, k - 1);
      OneMoreName(NamesOf(m.db.list[..k - 1]), m.db.list[k - 1].name, m.db.list[k - 1].typeId);
    }
  }

  lemma DatabaseRestored(db: Database)
    requires db.Sound() && ListMatchesIndex(db)
    ensures LoadDatabase(db.list) == db
  {
    LoadRestoresDatabase(db, |db.list|);
    assert db.list[..|db.list|] == db.list;
    var loaded := LoadDatabase(db.list);
    assert AfterEntries(db, loaded, |db.list|);
    forall id ensures id in loaded.index <==> id in db.index {
      assert id in db.index ==> db.index[id] < |db.list|;
    }
    assert loaded.index.Keys == db.index.Keys;
    assert forall id :: id in loaded.index ==> loaded.index[id] == db.index[id];
    assert loaded.index == db.index;
  }

  lemma NamesRestored(m: Manager)
    requires m.db.Sound() && ListMatchesIndex(m.db) && NamesMatchList(m)
    ensures NamesOf(m.db.list) == m.structMap && |m.structMap| == |m.db.list|
  {
    LoadRestoresNames(m, |m.db.list|);
    NamesAreCounted(m, |m.db.list|);
    assert m.db.list[..|m.db.list|] == m.db.list;
    var names := NamesOf(m.db.list);
    forall n ensures n in names <==> n in m.structMap {
      assert n in m.structMap ==> m.db.Rank(m.structMap[n]) <= |m.db.list|;
    }
    assert names == m.structMap;
  }

  /** A type file holds everything: loading what was stored gives the manager back. */
  lemma StoreLoadRoundTrip(m: Manager, env: Naming)
    requires AtRest(m, env)
    ensures Load(Store(m)) == m
  {
    DatabaseRestored(m.db);
    NamesRestored(m);
    IdsAreDense(m, env);
  }

  /** One compiler run per translation unit, each starting from the file the previous one stored. */
  function RegisterUnits(m: Manager, units: seq<seq<Type>>): (r: Manager)
    requires m.db.Sound()
    ensures r.db.Sound()
  {
    if units == [] then m
    else RegisterAll(Load(Store(RegisterUnits(m, units[..|units| - 1]))), units[|units| - 1])
  }

  function Concat(units: seq<seq<Type>>): seq<Type> {
    if units == [] then [] else Concat(units[..|units| - 1]) + units[|units| - 1]
  }

  lemma {:induction false} RegisterAllAppend(m: Manager, a: seq<Type>, b: seq<Type>)
    requires m.db.Sound()
    ensures RegisterAll(m, a + b) == RegisterAll(RegisterAll(m, a), b)
    decreases |b|
  {
    if b == [] {
      assert a + b == a;
    } else {
      var init := b[..|b| - 1];
      assert (a + b)[..|a + b| - 1] == a + init && (a + b)[|a + b| - 1] == b[|b| - 1];
      RegisterAllAppend(m, a, init);
    }
  }

  /** Any split into translation units gives the ids of a single process. */
  lemma {:induction false} UnitsAgreeWithOneProcess(m: Manager, env: Naming, units: seq<seq<Type>>)
    requires AtRest(m, env) && forall u :: 0 <= u < |units| ==> CoversAll(env, units[u])
    ensures CoversAll(env, Concat(units))
    ensures RegisterUnits(m, units) == RegisterAll(m, Concat(units))
    decreases |units|
  {
    if units != [] {
      var init, last := units[..|units| - 1], units[|units| - 1];
      UnitsAgreeWithOneProcess(m, env, init);
      RegisterAllKeepsInv(m, env, Concat(init));
      StoreLoadRoundTrip(RegisterUnits(m, init), env);
      RegisterAllAppend(m, Concat(init), last);
    }
  }

  // ----- Registered layouts are well formed -----

  lemma SizeOfResolved(m: Manager, env: Naming, pending: map<string, int>, ty: Type)
    requires Inv(m, env, pending) && Covers(env, ty) && Resolved(m, ty) && !ty.Array?
    ensures m.db.GetTypeSize(GetTypeID(m, ty)) <= SizeOf(ty)
    ensures Supported(ty) ==> m.db.IsValid(GetTypeID(m, ty)) && m.db.GetTypeSize(GetTypeID(m, ty)) == SizeOf(ty)
  {
    if Named(ty) {
      NamedTypeId(m, env, pending, ty);
    } else if ty.Scalar? && HasId(ty.kind) {
      BuiltinTables(ty.kind);
    }
  }

  lemma VectorFits(db: Database, id: int, elem: ScalarKind, n: nat, bytes: nat, bound: nat)
    requires db.Sound() && HasId(elem) && elem != X86_FP80 && 0 < n && 0 < bytes && n * ScalarBytes(elem) <= bytes
    ensures db.WellFormedLayout(VectorInfo(id, elem, n, bytes), bound)
  {
    ElementBytes(elem);
    VectorSpan(db, id, elem, n, bytes);
  }

  lemma VectorOverlaps(db: Database, id: int, elem: ScalarKind, n: nat, bytes: nat)
    requires db.Sound() && elem == X86_FP80 && 0 < n && n * ScalarBytes(elem) <= bytes
    ensures !(db.SpanEnd(VectorInfo(id, elem, n, bytes), 0) <= db.SpanLimit(VectorInfo(id, elem, n, bytes), 0))
  {
    VectorSpan(db, id, elem, n, bytes);
  }

  /** The bytes of a vector entry are laid out without overlap exactly when its element is not the 80-bit float. */
  lemma VectorLayoutIff(db: Database, id: int, elem: ScalarKind, n: nat, bytes: nat, bound: nat)
    requires db.Sound() && HasId(elem) && 0 < n && n * ScalarBytes(elem) <= bytes
    ensures db.WellFormedLayout(VectorInfo(id, elem, n, bytes), bound) <==> elem != X86_FP80
  {
    BytesPositive(elem, n);
    if elem == X86_FP80 {
      VectorOverlaps(db, id, elem, n, bytes);
    } else {
      VectorFits(db, id, elem, n, bytes, bound);
    }
  }

  lemma BytesPositive(elem: ScalarKind, n: nat)
    requires HasId(elem) && 0 < n
    ensures 0 < n * ScalarBytes(elem)
  {
  }

  lemma VectorSpan(db: Database, id: int, elem: ScalarKind, n: nat, bytes: nat)
    requires db.Sound() && HasId(elem)
    ensures db.SpanEnd(VectorInfo(id, elem, n, bytes), 0) == n * AllocSize(elem)
  {
    BuiltinTables(elem);
  }

  lemma FieldSpan(m: Manager, env: Naming, pending: map<string, int>, info: StructTypeInfo, ty: Type, i: nat)
    requires Inv(m, env, pending) && ty.Struct? && Covers(env, ty) && LaidOut(ty) && Describes(m, info, ty)
    requires i < |ty.fields|
    ensures m.db.SpanEnd(info, i) <= ty.fields[i].offset + SizeOf(ty.fields[i].ty)
  {
    var member := MemberType(ty, i);
    assert Covers(env, member) && Resolved(m, member);
    FlattenedSize(ty.fields[i].ty);
    SizeOfResolved(m, env, pending, member);
    MulLess(info.arraySizes[i], m.db.GetTypeSize(info.memberTypes[i]), SizeOf(member));
  }

  lemma MulLess(n: nat, a: nat, b: nat)
    requires a <= b
    ensures n * a <= n * b
  {
  }

  lemma StructLayoutWellFormed(m: Manager, env: Naming, pending: map<string, int>, info: StructTypeInfo, ty: Type, p: nat)
    requires Inv(m, env, pending) && ty.Struct? && Covers(env, ty) && LaidOut(ty) && Describes(m, info, ty)
    requires forall i :: 0 <= i < |info.memberTypes| ==> m.db.Rank(info.memberTypes[i]) <= p
    ensures m.db.WellFormedLayout(info, p)
  {
    forall i | 0 <= i < info.numMembers ensures m.db.SpanEnd(info, i) <= m.db.SpanLimit(info, i) {
      assert FieldFits(ty.fields, ty.size, i);
      FieldSpan(m, env, pending, info, ty, i);
      assert i + 1 < info.numMembers ==> info.offsets[i + 1] == ty.fields[i + 1].offset;
    }
  }

  /**
   With types as a data layout lays them out, every reachable database satisfies what the resolver relies on, in the
   middle of a registration too: member types sit at smaller list positions and members do not overlap. Members of
   unknown type are allowed.
   */
  lemma RegisteredLayoutsWellFormed(m: Manager, env: Naming, pending: map<string, int>)
    requires Inv(m, env, pending) && ValidNaming(env) && forall n :: n in env ==> LaidOut(env[n])
    ensures m.db.WellFormed()
  {
    forall p | 0 <= p < |m.db.list| ensures m.db.WellFormedLayout(m.db.list[p], p) {
      var info := m.db.list[p];
      var ty := env[info.name];
      if ty.Vector? {
        VectorLayoutIff(m.db, info.typeId, ty.elem, ty.n, ty.bytes, p);
      } else {
        StructLayoutWellFormed(m, env, pending, info, ty, p);
      }
    }
  }

  // ----- Vector names -----

  lemma {:induction false} DecimalDigits(n: nat)
    ensures Decimal(n) != [] && forall i :: 0 <= i < |Decimal(n)| ==> '0' <= Decimal(n)[i] <= '9'
  {
    if n >= 10 {
      DecimalDigits(n / 10);
    }
  }

  lemma {:induction false} DecimalInjective(n: nat, k: nat)
    requires Decimal(n) == Decimal(k)
    ensures n == k
  {
    DecimalDigits(n / 10);
    DecimalDigits(k / 10);
    assert Decimal(n)[|Decimal(n)| - 1] == Digit(n % 10);
    assert Decimal(k)[|Decimal(k)| - 1] == Digit(k % 10);
    if n >= 10 && k >= 10 {
      assert Decimal(n)[..|Decimal(n)| - 1] == Decimal(n / 10);
      assert Decimal(k)[..|Decimal(k)| - 1] == Decimal(k / 10);
      DecimalInjective(n / 10, k / 10);
    }
  }

  lemma StartsWithColon(x: string, u: string)
    requires ':' !in x
    ensures (x + ":" + u)[0] == ':' <==> x == []
  {
    assert x != [] ==> (x + ":" + u)[0] == x[0];
  }

  /** The first colon splits a text in one way only. */
  lemma {:induction false} SplitAtColon(x: string, u: string, y: string, v: string)
    requires ':' !in x && ':' !in y && x + ":" + u == y + ":" + v
    ensures x == y && u == v
    decreases |x|
  {
    var s, t := x + ":" + u, y + ":" + v;
    if x == [] || y == [] {
      StartsWithColon(x, u);
      StartsWithColon(y, v);
      assert s[1..] == u && t[1..] == v;
    } else {
      assert s[0] == x[0] && t[0] == y[0];
      assert s[1..] == x[1..] + ":" + u && t[1..] == y[1..] + ":" + v;
      SplitAtColon(x[1..], u, y[1..], v);
    }
  }

  lemma SplitVectorName(x: string, u: string, y: string, v: string)
    requires ':' !in x && ':' !in y && "vec" + x + ":" + u == "vec" + y + ":" + v
    ensures x == y && u == v
  {
    var s, t := x + ":" + u, y + ":" + v;
    assert ("vec" + x + ":" + u)[3..] == s && ("vec" + y + ":" + v)[3..] == t;
    SplitAtColon(x, u, y, v);
  }

  lemma DecimalHasNoColon(n: nat)
    ensures ':' !in Decimal(n)
  {
    DecimalDigits(n);
  }

  lemma VectorNameTexts(a: string, n: nat, b: string, k: nat)
    requires "vec" + Decimal(n) + ":" + a == "vec" + Decimal(k) + ":" + b
    ensures a == b && n == k
  {
    DecimalHasNoColon(n);
    DecimalHasNoColon(k);
    SplitVectorName(Decimal(n), a, Decimal(k), b);
    DecimalInjective(n, k);
  }

  /** A vector name tells the element type and the length, so one name means one vector type. */
  lemma VectorNameInjective(a: ScalarKind, n: nat, b: ScalarKind, k: nat)
    requires HasId(a) && HasId(b) && VectorName(a, n) == VectorName(b, k)
    ensures a == b && n == k
  {
    BuiltinTables(a);
    BuiltinTables(b);
    VectorNameTexts(InterfaceName(a), n, InterfaceName(b), k);
    NamesDistinct(a, b);
  }

  lemma NamesDistinct(a: ScalarKind, b: ScalarKind)
    requires HasId(a) && HasId(b) && InterfaceName(a) == InterfaceName(b)
    ensures a == b
  {
    assert |"int8"| == 4 && |"half"| == 4 && "int8"[0] != "half"[0];
    assert |"int16"| == 5 && |"int32"| == 5 && |"int64"| == 5 && |"float"| == 5;
    assert "int16"[3] == '1' && "int32"[3] == '3' && "int64"[3] == '6' && "float"[0] == 'f' && "int16"[0] == 'i';
    assert |"double"| == 6 && |"float128"| == 8 && |"x86_float80"| == 11 && |"ppc_float128"| == 12 && |"pointer"| == 7;
  }

  /** The name of a vector: "vec", the decimal digits of its length, a colon, the name of its elements. */
  lemma VectorNameText(elem: ScalarKind, n: nat)
    requires HasId(elem)
    ensures exists digits :: Digits(digits) && Value(digits) == n && VectorName(elem, n) == "vec" + digits + ":" + InterfaceName(elem)
  {
    BuiltinTables(elem);
    DecimalValue(n);
  }

  // ----- Where a naming comes from -----

  /** The named types inside a type, itself included. */
  ghost function NamedIn(ty: Type): (types: set<Type>)
    ensures forall t :: t in types ==> Named(t)
    decreases TypeNodes(ty)
  {
    (if Named(ty) then {ty} else {})
    + (if ty.Struct? then set i, t | 0 <= i < |ty.fields| && t in NamedIn(MemberType(ty, i)) :: t else {})
  }

  ghost function NamedInAll(types: seq<Type>): (named: set<Type>)
    ensures forall t :: t in named ==> Named(t)
  {
    set i, t | 0 <= i < |types| && t in NamedIn(types[i]) :: t
  }

  /**
   What a naming has to assume: equal names mean equal structs, a vector has one size in bytes, and no struct is
   called like a vector. That a vector name tells element and length is proved.
   */
  ghost predicate Determined(types: set<Type>) {
    && (forall s, t :: s in types && t in types && s.Struct? && t.Struct? && s.name == t.name ==> s == t)
    && (forall s, t :: s in types && t in types && s.Vector? && t.Vector? && s.elem == t.elem && s.n == t.n ==> s.bytes == t.bytes)
    && (forall s, t :: s in types && t in types && s.Struct? && t.Vector? && Named(t) ==> s.name != NameOf(t))
  }

  lemma NameDetermines(types: set<Type>, s: Type, t: Type)
    requires Determined(types) && s in types && t in types
    requires Named(s) && Named(t) && NameOf(s) == NameOf(t)
    ensures s == t
  {
    if s.Vector? && t.Vector? {
      VectorNameInjective(s.elem, s.n, t.elem, t.n);
    }
  }

  ghost function NamingOf(types: set<Type>): (env: Naming)
    requires Determined(types) && forall t :: t in types ==> Named(t)
    ensures forall t :: t in types ==> NameOf(t) in env && env[NameOf(t)] == t
    ensures forall n :: n in env ==> env[n] in types && NameOf(env[n]) == n
  {
    assert forall s, t :: s in types && t in types && NameOf(s) == NameOf(t) ==> s == t by {
      forall s, t | s in types && t in types && NameOf(s) == NameOf(t) ensures s == t {
        NameDetermines(types, s, t);
      }
    }
    map t | t in types :: NameOf(t) := t
  }

  lemma {:induction false} NamingCovers(env: Naming, ty: Type)
    requires forall t :: t in NamedIn(ty) ==> NameOf(t) in env && env[NameOf(t)] == t
    ensures Covers(env, ty)
    decreases TypeNodes(ty)
  {
    if ty.Struct? {
      forall i | 0 <= i < |ty.fields| ensures Covers(env, MemberType(ty, i)) {
        NamingCovers(env, MemberType(ty, i));
      }
    }
  }

  lemma {:induction false} NamedInside(ty: Type, t: Type)
    requires t in NamedIn(ty)
    ensures NamedIn(t) <= NamedIn(ty)
    decreases TypeNodes(ty)
  {
    if t != ty {
      var i :| 0 <= i < |ty.fields| && t in NamedIn(MemberType(ty, i));
      NamedInside(MemberType(ty, i), t);
    }
  }

  /** The assumption on names is enough: it gives a naming that covers everything inside the types. */
  lemma NamingExists(types: seq<Type>) returns (env: Naming)
    requires Determined(NamedInAll(types))
    ensures ValidNaming(env) && CoversAll(env, types)
    ensures forall n :: n in env ==> env[n] in NamedInAll(types)
  {
    env := NamingOf(NamedInAll(types));
    forall i | 0 <= i < |types| ensures Covers(env, types[i]) {
      NamingCovers(env, types[i]);
    }
    forall n | n in env ensures Covers(env, env[n]) {
      var i :| 0 <= i < |types| && env[n] in NamedIn(types[i]);
      NamedInside(types[i], env[n]);
      NamingCovers(env, env[n]);
    }
  }

  // ----- The manager object -----

  class TypeManager {
    const typeDB: TypeDB
    var structMap: map<string, int>
    var structCount: nat

    function View(): Manager
      reads this, typeDB
    {
      Manager(typeDB.View(), structMap, structCount)
    }

    constructor ()
      ensures View() == EMPTY_MANAGER && fresh(typeDB)
    {
      typeDB := new TypeDB();
      structMap, structCount := map[], 0;
    }

    method ReserveNextId() returns (id: int)
      modifies this
      ensures (View(), id) == Reserved(old(View()))
    {
      id := TYPEART_NUM_RESERVED_IDS + structCount;
      structCount := structCount + 1;
    }

    method GetOrRegisterType(ty: Type) returns (id: int)
      requires View().db.Sound()
      modifies this, typeDB
      ensures (View(), id) == RegisterType(old(View()), ty)
      decreases TypeNodes(ty), 1
    {
      match ty {
        case Scalar(kind) => id := BuiltinTypeId(kind);
        case Vector(elem, n, bytes) => id := GetOrRegisterVector(elem, n, bytes);
        case Struct(_, _, _) => id := GetOrRegisterStruct(ty);
        case Array(_, _) => id := TYPEART_UNKNOWN_TYPE;
        case Other => id := TYPEART_UNKNOWN_TYPE;
      }
    }

    method GetOrRegisterVector(elem: ScalarKind, n: nat, bytes: nat) returns (id: int)
      requires View().db.Sound()
      modifies this, typeDB
      ensures (View(), id) == RegisterType(old(View()), Vector(elem, n, bytes))
    {
      var known := VectorID(View(), elem, n);
      if known.Some? {
        return known.value;
      }
      id := ReserveNextId();
      var memberTypeIDs, arraySizes, offsets := [BuiltinTypeId(elem)], [n], [0];
      var usableBytes := n * ScalarBytes(elem);
      if bytes > usableBytes {
        memberTypeIDs := memberTypeIDs + [TYPEART_INT8];
        arraySizes := arraySizes + [bytes - usableBytes];
        offsets := offsets + [usableBytes];
      }
      var name := VectorName(elem, n);
      typeDB.RegisterStruct(
        StructTypeInfo(id, name, bytes, |memberTypeIDs|, offsets, memberTypeIDs, arraySizes, LLVM_VECTOR));
      if name !in structMap {
        structMap := structMap[name := id];
      }
      var info := VectorInfo(id, elem, n, bytes);
      assert info == StructTypeInfo(id, name, bytes, |memberTypeIDs|, offsets, memberTypeIDs, arraySizes, LLVM_VECTOR);
    }

    method GetOrRegisterStruct(ty: Type) returns (id: int)
      requires ty.Struct? && View().db.Sound()
      modifies this, typeDB
      ensures (View(), id) == RegisterType(old(View()), ty)
      decreases TypeNodes(ty), 0
    {
      var known := StructID(View(), ty.name);
      if known.Some? {
        return known.value;
      }
      id := ReserveNextId();
      ghost var reserved := View();
      var offsets: seq<nat>, arraySizes: seq<nat>, memberTypeIDs: seq<int> := [], [], [];
      for i := 0 to |ty.fields|
        invariant View().db.Sound()
        invariant (View(), memberTypeIDs) == RegisterMembers(reserved, ty, id, i)
        invariant offsets == Offsets(ty, i) && arraySizes == Lengths(ty, i)
      {
        var memberType := MemberType(ty, i);
        var memberID;
        if memberType.Struct? && memberType.name == ty.name {
          memberID := id;
        } else {
          memberID := GetOrRegisterType(memberType);
        }
        NextField(ty, i);
        offsets := offsets + [ty.fields[i].offset];
        arraySizes := arraySizes + [FlattenedLength(ty.fields[i].ty)];
        memberTypeIDs := memberTypeIDs + [memberID];
      }
      typeDB.RegisterStruct(
        StructTypeInfo(id, ty.name, ty.size, |ty.fields|, offsets, memberTypeIDs, arraySizes, USER_DEFINED));
      if ty.name !in structMap {
        structMap := structMap[ty.name := id];
      }
    }

    method LoadFrom(entries: seq<StructTypeInfo>)
      modifies this, typeDB
      ensures View() == Load(entries)
    {
      typeDB.Clear();
      for i := 0 to |entries|
        invariant typeDB.View() == LoadDatabase(entries[..i])
      {
        typeDB.RegisterStruct(entries[i]);
        assert entries[..i + 1][..i] == entries[..i];
      }
      assert entries[..|entries|] == entries;
      structMap := map[];
      var list := typeDB.structInfoVec;
      for i := 0 to |list|
        invariant typeDB.View() == LoadDatabase(entries)
        invariant structMap == NamesOf(list[..i])
      {
        if list[i].name !in structMap {
          structMap := structMap[list[i].name := list[i].typeId];
        }
        assert list[..i + 1][..i] == list[..i];
      }
      assert list[..|list|] == list;
      structCount := |structMap|;
    }
  }
}
