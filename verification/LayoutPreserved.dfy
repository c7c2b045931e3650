/**
 Registration preserves meaning: the byte picture the resolver works with is the picture of the LLVM type itself,
 with every type replaced by its id.
 */
module LayoutPreserved {
  import opened TypeDatabase
  import opened ScalarTypes
  import opened TypePicture
  import opened TypeGen
  import opened AllocMap
  import TypeResolution

  /** A byte of a type: it starts `count` objects of a type, or none. */
  datatype TypeCell = StartOf(ty: Type, count: nat) | InAtom | InPadding

  function Atom(size: nat): seq<TypeCell> {
    seq(size, _ => InAtom)
  }

  function Gap(size: nat): seq<TypeCell> {
    seq(size, _ => InPadding)
  }

  /** `n` elements in a row, each with the bytes of `element` behind its first one. */
  function Run(ty: Type, n: nat, element: seq<TypeCell>): (cells: seq<TypeCell>)
    requires element != []
    ensures |cells| == n * |element|
  {
    if n == 0 then [] else
      assert n * |element| == |element| + (n - 1) * |element|;
      [StartOf(ty, n)] + element[1..] + Run(ty, n - 1, element)
  }

  /** The bytes of one object of the type. Vectors fill up with explicit 8-bit integers. */
  ghost function Element(ty: Type): (cells: seq<TypeCell>)
    requires Supported(ty) && !ty.Array?
    ensures |cells| == SizeOf(ty) > 0
    decreases TypeNodes(ty), 1, 0
  {
    match ty
    case Scalar(kind) => Atom(AllocSize(kind))
    case Vector(elem, n, bytes) =>
      VectorSizePositive(ty);
      Run(Scalar(elem), n, Atom(AllocSize(elem)))
      + Run(Scalar(Int(8)), bytes - n * AllocSize(elem), Atom(1))
    case Struct(_, fields, _) => Members(ty, |fields|)
  }

  /** Where the bytes of field i end: at the next field, or at the end of the struct. */
  function FieldLimit(ty: Type, i: nat): nat
    requires ty.Struct? && i < |ty.fields|
  {
    if i + 1 < |ty.fields| then ty.fields[i + 1].offset else ty.size
  }

  /** The bytes of a struct up to the start of what follows its first k members. */
  ghost function Members(ty: Type, k: nat): (cells: seq<TypeCell>)
    requires Supported(ty) && ty.Struct? && k <= |ty.fields|
    ensures |cells| == if k == 0 then 0 else FieldLimit(ty, k - 1)
    decreases TypeNodes(ty), 0, k
  {
    if k == 0 then [] else
      var field := ty.fields[k - 1];
      FlattenedSize(field.ty);
      assert FieldFits(ty.fields, ty.size, k - 1);
      Members(ty, k - 1)
      + Run(MemberType(ty, k - 1), FlattenedLength(field.ty), Element(MemberType(ty, k - 1)))
      + Gap(FieldLimit(ty, k - 1) - field.offset - SizeOf(field.ty))
  }

  lemma VectorSizePositive(ty: Type)
    requires ty.Vector? && Supported(ty)
    ensures SizeOf(ty) > 0 && ScalarBytes(ty.elem) == AllocSize(ty.elem) > 0
    ensures ty.n * AllocSize(ty.elem) <= SizeOf(ty)
  {
    ElementBytes(ty.elem);
    BuiltinTables(ty.elem);
    MulMono(1, ty.n, AllocSize(ty.elem));
  }

  // ----- Labels -----

  /** The id of a type: of a scalar the one of the public interface, of a struct or vector the registered one. */
  function IdOf(m: Manager, ty: Type): (id: int)
    requires m.db.Sound()
    ensures id == GetTypeID(m, ty)
  {
    if ty.Scalar? && HasId(ty.kind) then InterfaceId(ty.kind) else GetTypeID(m, ty)
  }

  function Label(m: Manager, cell: TypeCell): Cell
    requires m.db.Sound()
  {
    match cell
    case StartOf(ty, count) => Start(IdOf(m, ty), count)
    case InAtom => Inside
    case InPadding => Padding
  }

  function Labelled(m: Manager, cells: seq<TypeCell>): seq<Cell>
    requires m.db.Sound()
  {
    seq(|cells|, i requires 0 <= i < |cells| => Label(m, cells[i]))
  }

  lemma LabelledAppend(m: Manager, a: seq<TypeCell>, b: seq<TypeCell>)
    requires m.db.Sound()
    ensures Labelled(m, a + b) == Labelled(m, a) + Labelled(m, b)
  {
  }

  lemma LabelledGap(m: Manager, n: nat)
    requires m.db.Sound()
    ensures Labelled(m, Gap(n)) == Fill(n)
  {
  }

  lemma LabelledOne(m: Manager, cell: TypeCell)
    requires m.db.Sound()
    ensures Labelled(m, [cell]) == [Label(m, cell)]
  {
  }

  lemma LabelledTail(m: Manager, cells: seq<TypeCell>)
    requires m.db.Sound() && cells != []
    ensures Labelled(m, cells[1..]) == Labelled(m, cells)[1..]
  {
  }

  lemma {:induction false} RunIsRow(m: Manager, ty: Type, n: nat, element: seq<TypeCell>)
    requires m.db.Sound() && element != []
    ensures Labelled(m, Run(ty, n, element)) == Row(GetTypeID(m, ty), n, Labelled(m, element))
    decreases n
  {
    if n > 0 {
      var head, rest := [StartOf(ty, n)], Run(ty, n - 1, element);
      RunIsRow(m, ty, n - 1, element);
      LabelledOne(m, StartOf(ty, n));
      LabelledTail(m, element);
      LabelledAppend(m, head, element[1..]);
      LabelledAppend(m, head + element[1..], rest);
    }
  }

  /** A run of elements is a block of their id. */
  lemma RunIsBlock(m: Manager, ty: Type, n: nat, element: seq<TypeCell>)
    requires m.db.WellFormed() && m.db.IsValid(GetTypeID(m, ty)) && element != []
    requires Interior(m.db, GetTypeID(m, ty)) == Labelled(m, element)
    ensures Labelled(m, Run(ty, n, element)) == Block(m.db, GetTypeID(m, ty), n)
  {
    RunIsRow(m, ty, n, element);
  }

  lemma AtomIsInterior(m: Manager, kind: ScalarKind)
    requires m.db.WellFormed() && HasId(kind)
    ensures Interior(m.db, InterfaceId(kind)) == Labelled(m, Atom(AllocSize(kind)))
  {
    BuiltinTables(kind);
    assert InterfaceId(kind) !in m.db.index;
  }

  /** Every name has an entry that translates its type. */
  ghost predicate Faithful(m: Manager, env: Naming) {
    && m.db.WellFormed()
    && forall name :: name in m.structMap ==> name in env && Translated(m, env[name])
  }

  /** The id of the type has an entry, and that is the type's translation. */
  ghost predicate Translated(m: Manager, ty: Type)
    requires m.db.Sound()
  {
    GetTypeID(m, ty) in m.db.index && Describes(m, m.db.list[m.db.index[GetTypeID(m, ty)]], ty)
  }

  lemma RegisteredIsFaithful(m: Manager, env: Naming, pending: map<string, int>)
    requires Inv(m, env, pending) && ValidNaming(env) && forall n :: n in env ==> LaidOut(env[n])
    ensures Faithful(m, env)
  {
    RegisteredLayoutsWellFormed(m, env, pending);
    forall name | name in m.structMap ensures name in env && Translated(m, env[name]) {
      NamedTypeId(m, env, pending, env[name]);
    }
  }

  /** The picture under the id of a type is the picture of the type. */
  lemma {:induction false} PicturePreserved(m: Manager, env: Naming, ty: Type)
    requires Faithful(m, env) && Covers(env, ty) && Resolved(m, ty) && Supported(ty) && !ty.Array?
    ensures m.db.IsValid(GetTypeID(m, ty))
    ensures Interior(m.db, GetTypeID(m, ty)) == Labelled(m, Element(ty))
    decreases TypeNodes(ty)
  {
    if ty.Scalar? {
      AtomIsInterior(m, ty.kind);
    } else {
      assert Translated(m, env[NameOf(ty)]);
      var p := m.db.index[GetTypeID(m, ty)];
      if ty.Vector? {
        VectorPreserved(m, ty, p);
      } else {
        for i := 0 to |ty.fields|
          invariant MembersAgree(m, ty, p, i)
        {
          MemberKnown(m, env, ty, p, i);
          PicturePreserved(m, env, MemberType(ty, i));
          MemberPictured(m, ty, p, i);
        }
        MembersPreserved(m, ty, p, |ty.fields|);
        StructPreserved(m, ty, p);
      }
    }
  }

  lemma StructPreserved(m: Manager, ty: Type, p: nat)
    requires m.db.WellFormed() && ty.Struct? && Supported(ty) && p < |m.db.list|
    requires m.db.list[p].numMembers == |ty.fields|
    requires TypePicture.Members(m.db, p, |ty.fields|) == Labelled(m, Members(ty, |ty.fields|))
    ensures Interior(m.db, m.db.list[p].typeId) == Labelled(m, Element(ty))
  {
  }

  /** A vector entry is its elements followed by filling bytes. */
  lemma VectorInterior(db: Database, p: nat, elem: ScalarKind, n: nat, bytes: nat)
    requires db.WellFormed() && p < |db.list| && HasId(elem) && n * AllocSize(elem) <= bytes
    requires elem != X86_FP80 && db.list[p] == VectorInfo(db.list[p].typeId, elem, n, bytes)
    ensures Interior(db, db.list[p].typeId)
         == Block(db, InterfaceId(elem), n) + Block(db, TYPEART_INT8, bytes - n * AllocSize(elem))
  {
    var usable, id := n * AllocSize(elem), InterfaceId(elem);
    ElementBytes(elem);
    BuiltinTables(elem);
    assert db.WellFormedLayout(db.list[p], p);
    assert TypePicture.Members(db, p, 0) == [];
    if bytes > usable {
      assert MemberCells(db, p, 0) == Block(db, id, n);
      assert MemberCells(db, p, 1) == Block(db, TYPEART_INT8, bytes - usable);
      assert TypePicture.Members(db, p, 1) == Block(db, id, n);
      assert TypePicture.Members(db, p, 2) == Block(db, id, n) + Block(db, TYPEART_INT8, bytes - usable);
    } else {
      assert MemberCells(db, p, 0) == Block(db, id, n);
    }
  }

  lemma VectorPreserved(m: Manager, ty: Type, p: nat)
    requires m.db.WellFormed() && ty.Vector? && Supported(ty) && p < |m.db.list|
    requires m.db.list[p] == VectorInfo(m.db.list[p].typeId, ty.elem, ty.n, ty.bytes)
    ensures Interior(m.db, m.db.list[p].typeId) == Labelled(m, Element(ty))
  {
    VectorSizePositive(ty);
    var filling := ty.bytes - ty.n * AllocSize(ty.elem);
    var front := Run(Scalar(ty.elem), ty.n, Atom(AllocSize(ty.elem)));
    var back := Run(Scalar(Int(8)), filling, Atom(1));
    VectorInterior(m.db, p, ty.elem, ty.n, ty.bytes);
    AtomIsInterior(m, ty.elem);
    AtomIsInterior(m, Int(8));
    RunIsBlock(m, Scalar(ty.elem), ty.n, Atom(AllocSize(ty.elem)));
    RunIsBlock(m, Scalar(Int(8)), filling, Atom(1));
    LabelledAppend(m, front, back);
  }

  /** Member i of entry p is field i of the struct, and the picture under its id is the picture of its type. */
  ghost predicate MemberAgrees(m: Manager, ty: Type, p: nat, i: nat)
    requires m.db.WellFormed() && ty.Struct? && i < |ty.fields| && p < |m.db.list|
  {
    var s, member := m.db.list[p], MemberType(ty, i);
    && i < s.numMembers == |s.offsets| == |s.memberTypes| == |s.arraySizes|
    && s.offsets[i] == ty.fields[i].offset && m.db.SpanLimit(s, i) == FieldLimit(ty, i)
    && s.arraySizes[i] == FlattenedLength(ty.fields[i].ty)
    && s.memberTypes[i] == GetTypeID(m, member)
    && Supported(member) && m.db.IsValid(GetTypeID(m, member))
    && Interior(m.db, GetTypeID(m, member)) == Labelled(m, Element(member))
  }

  /** Entry p is the struct's as far as its first k members. */
  ghost predicate MembersAgree(m: Manager, ty: Type, p: nat, k: nat) {
    && m.db.WellFormed() && ty.Struct? && Supported(ty) && k <= |ty.fields|
    && p < |m.db.list| && m.db.list[p].numMembers == |ty.fields|
    && (k > 0 ==> MembersAgree(m, ty, p, k - 1) && MemberAgrees(m, ty, p, k - 1))
  }

  lemma LabelledMember(m: Manager, before: seq<TypeCell>, member: Type, n: nat, element: seq<TypeCell>, gap: nat)
    requires m.db.Sound() && element != []
    ensures Labelled(m, before + Run(member, n, element) + Gap(gap))
         == Labelled(m, before) + (Row(GetTypeID(m, member), n, Labelled(m, element)) + Fill(gap))
  {
    LabelledGap(m, gap);
    LabelledAppend(m, before, Run(member, n, element));
    LabelledAppend(m, before + Run(member, n, element), Gap(gap));
    RunIsRow(m, member, n, element);
  }

  /** The cells of the entry's member in terms of the field. */
  lemma EntryMember(m: Manager, ty: Type, p: nat, k: nat)
    requires MembersAgree(m, ty, p, k) && k > 0
    ensures var field, member := ty.fields[k - 1], MemberType(ty, k - 1);
            && field.offset + SizeOf(field.ty) <= FieldLimit(ty, k - 1)
            && MemberCells(m.db, p, k - 1)
               == Row(GetTypeID(m, member), FlattenedLength(field.ty), Labelled(m, Element(member)))
                  + Fill(FieldLimit(ty, k - 1) - field.offset - SizeOf(field.ty))
  {
    assert FieldFits(ty.fields, ty.size, k - 1);
    FlattenedSize(ty.fields[k - 1].ty);
  }

  lemma MemberPreserved(m: Manager, ty: Type, p: nat, k: nat)
    requires MembersAgree(m, ty, p, k) && k > 0
    requires TypePicture.Members(m.db, p, k - 1) == Labelled(m, Members(ty, k - 1))
    ensures TypePicture.Members(m.db, p, k) == Labelled(m, Members(ty, k))
  {
    EntryMember(m, ty, p, k);
    var field, member := ty.fields[k - 1], MemberType(ty, k - 1);
    LabelledMember(m, Members(ty, k - 1), member, FlattenedLength(field.ty), Element(member),
                   FieldLimit(ty, k - 1) - field.offset - SizeOf(field.ty));
  }

  lemma {:induction false} MembersPreserved(m: Manager, ty: Type, p: nat, k: nat)
    requires MembersAgree(m, ty, p, k)
    ensures TypePicture.Members(m.db, p, k) == Labelled(m, Members(ty, k))
    decreases k
  {
    if k > 0 {
      MembersPreserved(m, ty, p, k - 1);
      MemberPreserved(m, ty, p, k);
    }
  }

  lemma MemberPictured(m: Manager, ty: Type, p: nat, i: nat)
    requires m.db.WellFormed() && ty.Struct? && i < |ty.fields| && p < |m.db.list|
    requires Describes(m, m.db.list[p], ty)
    requires var member := MemberType(ty, i);
             Supported(member) && m.db.IsValid(GetTypeID(m, member))
             && Interior(m.db, GetTypeID(m, member)) == Labelled(m, Element(member))
    ensures MemberAgrees(m, ty, p, i)
  {
    assert m.db.WellFormedLayout(m.db.list[p], p);
  }

  lemma MemberKnown(m: Manager, env: Naming, ty: Type, p: nat, i: nat)
    requires m.db.Sound() && ty.Struct? && Covers(env, ty) && Supported(ty) && i < |ty.fields|
    requires p < |m.db.list| && Describes(m, m.db.list[p], ty)
    ensures Covers(env, MemberType(ty, i)) && Resolved(m, MemberType(ty, i)) && Supported(MemberType(ty, i))
  {
    FlattenedSize(ty.fields[i].ty);
  }

  /** The registered types: names determine them, and every struct and vector among them is laid out. */
  ghost predicate WellTyped(types: seq<Type>) {
    Determined(NamedInAll(types)) && forall t :: t in NamedInAll(types) ==> LaidOut(t)
  }

  lemma {:induction false} CoversUnits(env: Naming, units: seq<seq<Type>>)
    requires CoversAll(env, Concat(units))
    ensures forall u :: 0 <= u < |units| ==> CoversAll(env, units[u])
    decreases |units|
  {
    if units != [] {
      var front, last := Concat(units[..|units| - 1]), units[|units| - 1];
      assert forall i :: 0 <= i < |front| ==> front[i] == Concat(units)[i];
      assert forall i :: 0 <= i < |last| ==> last[i] == Concat(units)[|front| + i];
      CoversUnits(env, units[..|units| - 1]);
    }
  }

  /**
   Whatever was registered, over however many translation units: an allocation of `n` objects of a type looks to
   the resolver byte for byte as the type lays it out.
   */
  lemma AllocationPreserved(units: seq<seq<Type>>, ty: Type, n: nat)
    requires WellTyped(Concat(units)) && ty in Concat(units) && Supported(ty) && !ty.Array?
    ensures var m := RegisterUnits(EMPTY_MANAGER, units);
            && m.db.WellFormed() && LoadDatabase(Store(m)) == m.db
            && m.db.IsValid(GetTypeID(m, ty))
            && Block(m.db, GetTypeID(m, ty), n) == Labelled(m, Run(ty, n, Element(ty)))
  {
    var m := RegisterUnits(EMPTY_MANAGER, units);
    var env := NamingExists(Concat(units));
    CoversUnits(env, units);
    EmptyInv(env);
    UnitsAgreeWithOneProcess(EMPTY_MANAGER, env, units);
    RegisterAllKeepsInv(EMPTY_MANAGER, env, Concat(units));
    RegisteredIsFaithful(m, env, map[]);
    DatabaseRestored(m.db);
    RegisteredIsResolved(EMPTY_MANAGER, env, Concat(units), ty);
    PicturePreserved(m, env, ty);
    RunIsBlock(m, ty, n, Element(ty));
  }

  /**
   From the compiler to the query: when `n` objects of a registered type are recorded at `base`, the answer for an
   address among them is what the type itself has at that byte. The runtime has loaded the stored database.
   */
  lemma QueryAnswersType(units: seq<seq<Type>>, ty: Type, n: nat, allocs: AllocEntries, base: Addr, addr: Addr,
                         r: TypeResolution.Answer)
    requires WellTyped(Concat(units)) && ty in Concat(units) && Supported(ty) && !ty.Array?
    requires base <= addr < base + n * SizeOf(ty)
    ensures var m := RegisterUnits(EMPTY_MANAGER, units);
            var db := LoadDatabase(Store(m));
            db.WellFormed() &&
            (&& TypeResolution.BasesNotInside(db, allocs)
             && TypeResolution.QueryAnswers(db, allocs, addr, r)
             && base in allocs && allocs[base].typeId == IdOf(m, ty) && allocs[base].count == n
             ==> r == TypeResolution.AnswerOf(Label(m, Run(ty, n, Element(ty))[addr - base])))
  {
    var m := RegisterUnits(EMPTY_MANAGER, units);
    AllocationPreserved(units, ty, n);
    if && TypeResolution.BasesNotInside(m.db, allocs) && TypeResolution.QueryAnswers(m.db, allocs, addr, r)
       && base in allocs && allocs[base].typeId == IdOf(m, ty) && allocs[base].count == n {
      BlockCellAnswers(m, ty, n, allocs, base, addr, r);
    }
  }

  lemma BlockCellAnswers(m: Manager, ty: Type, n: nat, allocs: AllocEntries, base: Addr, addr: Addr, r: TypeResolution.Answer)
    requires m.db.WellFormed() && Supported(ty) && !ty.Array? && m.db.IsValid(GetTypeID(m, ty))
    requires Block(m.db, GetTypeID(m, ty), n) == Labelled(m, Run(ty, n, Element(ty)))
    requires TypeResolution.BasesNotInside(m.db, allocs) && TypeResolution.QueryAnswers(m.db, allocs, addr, r)
    requires base in allocs && allocs[base].typeId == IdOf(m, ty) && allocs[base].count == n
    requires base <= addr < base + n * SizeOf(ty)
    ensures r == TypeResolution.AnswerOf(Label(m, Run(ty, n, Element(ty))[addr - base]))
  {
    assert |Labelled(m, Run(ty, n, Element(ty)))| == n * SizeOf(ty);
    TypeResolution.CoveringAnswers(m.db, allocs, addr, base, r);
    TypeResolution.BlockAnswerIsCell(m.db, base, allocs[base], addr);
  }

  lemma {:induction false} RegisteredIsResolved(m: Manager, env: Naming, types: seq<Type>, ty: Type)
    requires AtRest(m, env) && CoversAll(env, types) && ty in types
    ensures Covers(env, ty) && Resolved(RegisterAll(m, types), ty)
    decreases |types|
  {
    var init, last := types[..|types| - 1], types[|types| - 1];
    RegisterAllKeepsInv(m, env, init);
    var before := RegisterAll(m, init);
    RegisterTypeKeepsInv(before, env, map[], last);
    if ty in init {
      RegisteredIsResolved(m, env, init, ty);
      ResolvedIdStays(before, RegisterAll(m, types), env, map[], ty);
    }
  }
}
