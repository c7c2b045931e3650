/**
 The address-to-type resolver of lib/runtime/TypeResolution.cpp. The methods follow the source branch by
 branch; their contracts speak about the byte picture of a layout and about the recorded allocations.
 */
module TypeResolution {
  import opened Wrappers
  import opened TypeDatabase
  import opened TypePicture
  import opened AllocMap

  datatype Status = UNKNOWN_ADDRESS | BAD_ALIGNMENT | BAD_OFFSET | WRONG_KIND | INVALID_ID | ERROR

  /**
   TYPEART_OK carries the values the source stores through its out-pointers; other statuses store none. A query
   that divides by the size of an unknown type has no status at all.
   */
  datatype Result<+T> = OK(value: T) | Failed(status: Status) | DivisionByZero

  datatype TypeAndCount = TypeAndCount(typeId: int, count: nat)

  datatype Position = Position(count: nat, offset: nat)

  datatype SubType = SubType(typeId: int, baseAddr: Addr, offset: nat, count: nat)

  type Answer = Result<TypeAndCount>

  /** What a picture cell says about the address of its byte. */
  function AnswerOf(cell: Cell): Answer {
    match cell
    case Start(t, c) => OK(TypeAndCount(t, c))
    case Inside => Failed(BAD_ALIGNMENT)
    case Padding => Failed(BAD_ALIGNMENT)
    case Unsized => DivisionByZero
  }

  method GetMemberIndexAt(s: StructTypeInfo, offset: nat) returns (i: nat)
    requires |s.offsets| == s.numMembers
    ensures s.numMembers == 0 ==> i == 0
    ensures s.numMembers > 0 ==> i < s.numMembers && (i > 0 ==> s.offsets[i] <= offset)
    ensures s.numMembers > 0 && i + 1 < s.numMembers ==> offset < s.offsets[i + 1]
  {
    if s.numMembers == 0 {
      return 0;
    }
    if offset > s.offsets[s.numMembers - 1] {
      return s.numMembers - 1;
    }
    i := 0;
    while i < s.numMembers - 1 && offset >= s.offsets[i + 1]
      invariant i < s.numMembers && (i > 0 ==> s.offsets[i] <= offset)
    {
      i := i + 1;
    }
  }

  /** Member i of a container at `base` holds byte `offset` at byte `sub.offset` of an element with `sub.count` left. */
  ghost predicate LiesInMember(db: Database, s: StructTypeInfo, base: Addr, offset: nat, i: nat, sub: SubType)
    requires db.Sound() && i < |s.offsets| && i < |s.memberTypes| && i < |s.arraySizes|
  {
    && sub.typeId == s.memberTypes[i]
    && sub.baseAddr == base + s.offsets[i]
    && 0 < sub.count <= s.arraySizes[i]
    && sub.offset < db.GetTypeSize(sub.typeId)
    && base + offset == sub.baseAddr + (s.arraySizes[i] - sub.count) * db.GetTypeSize(sub.typeId) + sub.offset
  }

  /** One descent step agrees with the picture: it finds the object at the byte, or the member element around it. */
  ghost predicate StepAgrees(db: Database, s: StructTypeInfo, base: Addr, offset: nat, r: Result<SubType>)
    requires db.WellFormed() && db.GetStructInfo(s.typeId) == Some(s) && offset < s.extent
  {
    assert db.WellFormedLayout(s, db.index[s.typeId]);
    match r
    case OK(sub) =>
      && db.IsValid(sub.typeId) && sub.offset <= offset
      && db.Rank(sub.typeId) < db.Rank(s.typeId)
      && (exists i :: 0 <= i < s.numMembers && LiesInMember(db, s, base, offset, i, sub))
      && (sub.offset != 0 ==> sub.typeId in db.index)
      && Interior(db, s.typeId)[offset]
         == (if sub.offset == 0 then Start(sub.typeId, sub.count) else Interior(db, sub.typeId)[sub.offset])
    case Failed(status) => AnswerOf(Interior(db, s.typeId)[offset]) == Failed(status)
    case DivisionByZero => Interior(db, s.typeId)[offset] == Unsized
  }

  method GetSubTypeInfo(db: Database, baseAddr: Addr, offset: nat, container: StructTypeInfo)
    returns (r: Result<SubType>)
    requires db.WellFormed()
    requires container.typeId >= 0 && offset < container.extent ==> db.GetStructInfo(container.typeId) == Some(container)
    ensures container.typeId < 0 ==> r == Failed(ERROR)
    ensures container.typeId >= 0 && container.extent <= offset ==> r == Failed(BAD_OFFSET)
    ensures container.typeId >= 0 && offset < container.extent ==> StepAgrees(db, container, baseAddr, offset, r)
  {
    if container.typeId < 0 {
      return Failed(ERROR);
    }
    if offset >= container.extent {
      return Failed(BAD_OFFSET);
    }
    ghost var p := db.index[container.typeId];
    assert db.WellFormedLayout(container, p);
    var memberIndex := GetMemberIndexAt(container, offset);
    var memberType := container.memberTypes[memberIndex];
    var baseOffset := container.offsets[memberIndex];
    KnownTypeHasSize(db, memberType);
    assert db.SpanEnd(container, memberIndex) <= db.SpanLimit(container, memberIndex);

    var internalOffset := offset - baseOffset;
    var typeSize := db.GetTypeSize(memberType);
    if typeSize == 0 {
      StepIntoUnknown(db, baseAddr, offset, container, memberIndex);
      return DivisionByZero;
    }
    var offsetInTypeSize, newOffset := DivMod(internalOffset, typeSize);
    StepAgreesAt(db, baseAddr, offset, container, memberIndex, offsetInTypeSize, newOffset);

    if newOffset != 0 {
      if IsReservedType(memberType) {
        return Failed(BAD_ALIGNMENT);
      }
    }
    if offsetInTypeSize >= container.arraySizes[memberIndex] {
      return Failed(BAD_ALIGNMENT);
    }
    var subCount := container.arraySizes[memberIndex] - offsetInTypeSize;
    r := OK(SubType(memberType, baseAddr + baseOffset, newOffset, subCount));
  }

  /** A byte in the span of a member of unknown type has no answer. */
  lemma StepIntoUnknown(db: Database, base: Addr, offset: nat, s: StructTypeInfo, i: nat)
    requires db.WellFormed() && db.GetStructInfo(s.typeId) == Some(s) && offset < s.extent
    requires i < s.numMembers == |s.offsets| == |s.memberTypes| == |s.arraySizes|
    requires s.offsets[i] <= offset < db.SpanLimit(s, i) && !db.IsValid(s.memberTypes[i])
    ensures StepAgrees(db, s, base, offset, DivisionByZero)
  {
    InteriorAt(db, s.typeId, i, offset);
    MemberCellAt(db, db.index[s.typeId], i, offset - s.offsets[i]);
  }

  /** The descent through member i agrees with the picture, given element and byte within the member. */
  lemma StepAgreesAt(db: Database, base: Addr, offset: nat, s: StructTypeInfo, i: nat, k: nat, x: nat)
    requires db.WellFormed() && db.GetStructInfo(s.typeId) == Some(s) && offset < s.extent
    requires i < s.numMembers == |s.offsets| == |s.memberTypes| == |s.arraySizes|
    requires s.offsets[i] <= offset < db.SpanLimit(s, i)
    requires db.IsValid(s.memberTypes[i]) && db.Rank(s.memberTypes[i]) <= db.index[s.typeId]
    requires x < db.GetTypeSize(s.memberTypes[i])
    requires offset - s.offsets[i] == k * db.GetTypeSize(s.memberTypes[i]) + x
    ensures StepAgrees(db, s, base, offset,
                       if k >= s.arraySizes[i] || (x != 0 && IsReservedType(s.memberTypes[i])) then Failed(BAD_ALIGNMENT)
                       else OK(SubType(s.memberTypes[i], base + s.offsets[i], x, s.arraySizes[i] - k)))
  {
    CellOfMember(db, s.typeId, i, offset, k, x);
    MulMono(0, k, db.GetTypeSize(s.memberTypes[i]));
    if k < s.arraySizes[i] {
      var sub := SubType(s.memberTypes[i], base + s.offsets[i], x, s.arraySizes[i] - k);
      assert LiesInMember(db, s, base, offset, i, sub);
    }
  }

  /** C++ division and remainder of unsigned operands. */
  method DivMod(x: nat, size: nat) returns (quotient: nat, remainder: nat)
    requires size > 0
    ensures x == quotient * size + remainder && remainder < size
  {
    quotient, remainder := x / size, x % size;
  }

  /** The picture at byte x of element k of member i's run, which may reach past the member into padding. */
  lemma CellOfMember(db: Database, id: int, i: nat, offset: nat, k: nat, x: nat)
    requires db.WellFormed() && id in db.index
    requires i < db.list[db.index[id]].numMembers
    requires db.list[db.index[id]].offsets[i] <= offset < db.SpanLimit(db.list[db.index[id]], i)
    requires db.IsValid(db.list[db.index[id]].memberTypes[i])
    requires x < db.GetTypeSize(db.list[db.index[id]].memberTypes[i])
    requires var s := db.list[db.index[id]];
             offset - s.offsets[i] == k * db.GetTypeSize(s.memberTypes[i]) + x
    ensures offset < |Interior(db, id)|
    ensures var s := db.list[db.index[id]];
            Interior(db, id)[offset]
            == if k >= s.arraySizes[i] then Padding
               else if x == 0 then Start(s.memberTypes[i], s.arraySizes[i] - k)
               else Interior(db, s.memberTypes[i])[x]
  {
    var s := db.list[db.index[id]];
    assert db.WellFormedLayout(s, db.index[id]);
    InteriorAt(db, id, i, offset);
    MemberCellAt(db, db.index[id], i, offset - s.offsets[i]);
    if k < s.arraySizes[i] {
      BlockAt(db, s.memberTypes[i], s.arraySizes[i], k, x);
    } else {
      MulMono(s.arraySizes[i], k, db.GetTypeSize(s.memberTypes[i]));
    }
  }

  method GetTypeInfoInternal(db: Database, baseAddr: Addr, offset: nat, container: StructTypeInfo) returns (r: Answer)
    requires db.WellFormed() && db.GetStructInfo(container.typeId) == Some(container)
    requires offset < container.extent
    ensures r == AnswerOf(Interior(db, container.typeId)[offset])
  {
    var base: Addr, off: nat, structInfo := baseAddr, offset, container;
    assert db.WellFormedLayout(structInfo, db.index[structInfo.typeId]);
    var resolve := true;
    var sub := SubType(-1, baseAddr, 0, 0);
    while resolve
      invariant resolve ==> db.GetStructInfo(structInfo.typeId) == Some(structInfo)
      invariant resolve ==> off < structInfo.extent == |Interior(db, structInfo.typeId)|
      invariant resolve ==> Interior(db, container.typeId)[offset] == Interior(db, structInfo.typeId)[off]
      invariant !resolve ==> Interior(db, container.typeId)[offset] == Start(sub.typeId, sub.count)
      decreases resolve, db.Rank(structInfo.typeId)
    {
      var subTypeStatus := GetSubTypeInfo(db, base, off, structInfo);
      match subTypeStatus {
        case Failed(status) => return Failed(status);
        case DivisionByZero => return DivisionByZero;
        case OK(found) => sub := found;
      }
      base, off := sub.baseAddr, sub.offset;
      resolve := off != 0;
      if resolve {
        var structStatus := GetStructInfo(db, sub.typeId);
        match structStatus {
          case Failed(status) => return Failed(status);
          case DivisionByZero => return DivisionByZero;
          case OK(info) => structInfo := info;
        }
      }
    }
    r := OK(TypeAndCount(sub.typeId, sub.count));
  }

  method GetStructInfo(db: Database, typeId: int) returns (r: Result<StructTypeInfo>)
    requires db.Sound()
    ensures r.OK? <==> typeId in db.index
    ensures r.OK? ==> db.GetStructInfo(typeId) == Some(r.value)
    ensures r == Failed(WRONG_KIND) <==> typeId < TYPEART_NUM_RESERVED_IDS
    ensures r.Failed? ==> r.status == WRONG_KIND || r.status == INVALID_ID
    ensures !r.DivisionByZero?
  {
    if !IsStructType(typeId) {
      return Failed(WRONG_KIND);
    }
    var result := db.GetStructInfo(typeId);
    if result.Some? {
      return OK(result.value);
    }
    r := Failed(INVALID_ID);
  }

  // ----- Allocations -----

  /** An allocation covers its base (even with count zero) and the bytes of its elements. */
  ghost predicate Contains(db: Database, base: Addr, info: PointerInfo, addr: Addr)
    requires db.Sound()
  {
    addr == base || base <= addr < base + info.count * db.GetTypeSize(info.typeId)
  }

  /** What the picture of one allocation says about an address it covers. */
  ghost function BlockAnswer(db: Database, base: Addr, info: PointerInfo, addr: Addr): Answer
    requires db.WellFormed() && Contains(db, base, info, addr)
  {
    if addr == base then OK(TypeAndCount(info.typeId, info.count))
    else
      KnownTypeHasSize(db, info.typeId);
      AnswerOf(Block(db, info.typeId, info.count)[addr - base])
  }

  /** `pos` counts the elements left from the one around `addr`, and the bytes from the start of that element. */
  ghost predicate IsPosition(db: Database, base: Addr, info: PointerInfo, addr: Addr, pos: Position)
    requires db.Sound()
  {
    if addr == base then pos == Position(info.count, 0)
    else
      && 0 < pos.count <= info.count
      && pos.offset < db.GetTypeSize(info.typeId)
      && addr == base + (info.count - pos.count) * db.GetTypeSize(info.typeId) + pos.offset
  }

  /** The bounds check divides by the size of the type, unless the address is the base itself. */
  method GetContainingTypeInfo(db: Database, addr: Addr, basePtr: Addr, info: PointerInfo) returns (r: Result<Position>)
    requires db.WellFormed() && basePtr <= addr
    ensures r.DivisionByZero? <==> basePtr < addr && !db.IsValid(info.typeId)
    ensures r.OK? <==> Contains(db, basePtr, info, addr)
    ensures r.Failed? ==> r.status == UNKNOWN_ADDRESS
    ensures r.OK? ==> IsPosition(db, basePtr, info, addr, r.value)
  {
    var typeSize := db.GetTypeSize(info.typeId);
    KnownTypeHasSize(db, info.typeId);
    if basePtr == addr {
      return OK(Position(info.count, 0));
    }
    var blockEnd := basePtr + info.count * typeSize;
    if addr >= blockEnd {
      // The warning about the overrun reports a number of elements.
      if typeSize == 0 {
        return DivisionByZero;
      }
      return Failed(UNKNOWN_ADDRESS);
    }
    SizePositive(info.count, typeSize, addr - basePtr);
    var addrDif := addr - basePtr;
    var typeOffset, internalOffset := DivMod(addrDif, typeSize);
    assert typeOffset < info.count by {
      if info.count <= typeOffset { MulMono(info.count, typeOffset, typeSize); }
    }
    r := OK(Position(info.count - typeOffset, internalOffset));
  }

  lemma SizePositive(count: nat, size: nat, o: nat)
    requires o < count * size
    ensures size > 0
  {
  }

  /** The cell of an address inside a block, from its position. */
  lemma AnswerAtPosition(db: Database, base: Addr, info: PointerInfo, addr: Addr, pos: Position)
    requires db.WellFormed() && Contains(db, base, info, addr) && IsPosition(db, base, info, addr, pos)
    ensures pos.offset <= addr
    ensures pos.offset > 0 ==> db.IsValid(info.typeId) && pos.offset < |Interior(db, info.typeId)|
    ensures BlockAnswer(db, base, info, addr)
         == if pos.offset == 0 then OK(TypeAndCount(info.typeId, pos.count))
            else AnswerOf(Interior(db, info.typeId)[pos.offset])
  {
    if addr != base {
      KnownTypeHasSize(db, info.typeId);
      var k, size := info.count - pos.count, db.GetTypeSize(info.typeId);
      MulMono(0, k, size);
      assert addr - base == k * size + pos.offset;
      BlockAt(db, info.typeId, info.count, k, pos.offset);
    }
  }

  /** Counters and address sets that type queries update. */
  class RequestRecorder {
    var addrChecked: nat
    var addrMissing: nat
    var seen: set<Addr>
    var missing: set<Addr>

    method IncUsedInRequest(addr: Addr)
      modifies this
      ensures addrChecked == old(addrChecked) + 1 && seen == old(seen) + {addr}
      ensures addrMissing == old(addrMissing) && missing == old(missing)
    {
      addrChecked := addrChecked + 1;
      seen := seen + {addr};
    }

    method IncAddrMissing(addr: Addr)
      modifies this
      ensures addrMissing == old(addrMissing) + 1 && missing == old(missing) + {addr}
      ensures addrChecked == old(addrChecked) && seen == old(seen)
    {
      addrMissing := addrMissing + 1;
      missing := missing + {addr};
    }
  }

  method GetTypeInfo(db: Database, recorder: RequestRecorder, addr: Addr, basePtr: Addr, info: PointerInfo)
    returns (r: Answer)
    requires db.WellFormed() && basePtr <= addr
    modifies recorder
    ensures r == if Contains(db, basePtr, info, addr) then BlockAnswer(db, basePtr, info, addr)
                 else if db.IsValid(info.typeId) then Failed(UNKNOWN_ADDRESS)
                 else DivisionByZero
    ensures recorder.addrMissing == old(recorder.addrMissing) + if r == Failed(UNKNOWN_ADDRESS) then 1 else 0
    ensures recorder.missing == old(recorder.missing) + if r == Failed(UNKNOWN_ADDRESS) then {addr} else {}
    ensures recorder.addrChecked == old(recorder.addrChecked) && recorder.seen == old(recorder.seen)
  {
    var containingType := info.typeId;
    var position := GetContainingTypeInfo(db, addr, basePtr, info);
    match position {
      case Failed(status) =>
        if status == UNKNOWN_ADDRESS {
          recorder.IncAddrMissing(addr);
        }
        return Failed(status);
      case DivisionByZero =>
        return DivisionByZero;
      case OK(pos) =>
        AnswerAtPosition(db, basePtr, info, addr, pos);
        if pos.offset == 0 {
          return OK(TypeAndCount(containingType, pos.count));
        }
        if IsBuiltinType(containingType) {
          return Failed(BAD_ALIGNMENT);
        }
        var structInfo := db.GetStructInfo(containingType);
        if structInfo.Some? {
          r := GetTypeInfoInternal(db, addr - pos.offset, pos.offset, structInfo.value);
          return;
        }
        r := Failed(INVALID_ID);
    }
  }

  // ----- All allocations together -----

  /** No recorded base lies strictly inside another recorded allocation. */
  ghost predicate BasesNotInside(db: Database, m: AllocEntries)
    requires db.Sound()
  {
    forall b, c :: b in m && c in m && b < c ==> !Contains(db, b, m[b], c)
  }

  /** The answer found by looking at every allocation: that of a covering one, or an unknown address. */
  ghost predicate AnswersSearch(db: Database, m: AllocEntries, addr: Addr, r: Answer)
    requires db.WellFormed()
  {
    && (r == Failed(UNKNOWN_ADDRESS) <==> forall b :: b in m ==> !Contains(db, b, m[b], addr))
    && (forall b :: b in m && Contains(db, b, m[b], addr) ==> r == BlockAnswer(db, b, m[b], addr))
  }

  /** The nearest allocation starts below the address, and nothing is known about its type. */
  ghost predicate NearestIsUnknown(db: Database, m: AllocEntries, addr: Addr) {
    exists b :: b in m && b < addr && IsNearestBelow(m, addr, Some((b, m[b]))) && !db.IsValid(m[b].typeId)
  }

  /** The nearest allocation covers the address by the span of a member of unknown type. */
  ghost predicate NearestIsUnsized(db: Database, m: AllocEntries, addr: Addr)
    requires db.WellFormed()
  {
    exists b :: b in m && IsNearestBelow(m, addr, Some((b, m[b]))) && Contains(db, b, m[b], addr)
             && BlockAnswer(db, b, m[b], addr).DivisionByZero?
  }

  /**
   What a type query is for. It has no answer exactly if the nearest allocation is of an unknown type, or covers the
   address by a member of an unknown type. It answers as a search of all allocations does, whatever else is
   recorded, if no base lies inside another allocation and the bounds check does not divide by zero.
   */
  ghost predicate QueryAnswers(db: Database, m: AllocEntries, addr: Addr, r: Answer)
    requires db.WellFormed()
  {
    && (r.DivisionByZero? <==> NearestIsUnknown(db, m, addr) || NearestIsUnsized(db, m, addr))
    && (BasesNotInside(db, m) && !NearestIsUnknown(db, m, addr) ==> AnswersSearch(db, m, addr, r))
    && (r.Failed? ==> r.status == UNKNOWN_ADDRESS || r.status == BAD_ALIGNMENT)
  }

  /** The lookup condition is exact: it says that no address is covered twice. */
  lemma NotInsideIffCoveredOnce(db: Database, m: AllocEntries)
    requires db.WellFormed()
    ensures BasesNotInside(db, m)
       <==> forall a: Addr, b, c ::
              b in m && c in m && Contains(db, b, m[b], a) && Contains(db, c, m[c], a) ==> b == c
  {
    SharedAddressMeansInside(db, m);
    if !BasesNotInside(db, m) {
      var b, c :| b in m && c in m && b < c && Contains(db, b, m[b], c);
      assert Contains(db, c, m[c], c);
    }
  }

  lemma SharedAddressMeansInside(db: Database, m: AllocEntries)
    requires db.Sound()
    ensures forall a: Addr, b, c :: b in m && c in m && b < c && Contains(db, b, m[b], a) && Contains(db, c, m[c], a) ==>
              Contains(db, b, m[b], c)
  {
  }

  /** One bounds check on the nearest base below answers for all allocations. */
  lemma NearestBelowSuffices(db: Database, m: AllocEntries, addr: Addr, nearest: Option<(Addr, PointerInfo)>, r: Answer)
    requires db.WellFormed() && BasesNotInside(db, m)
    requires IsNearestBelow(m, addr, nearest)
    requires nearest.None? ==> r == Failed(UNKNOWN_ADDRESS)
    requires nearest.Some? ==> r == var (b, info) := nearest.value;
                                    if Contains(db, b, info, addr) then BlockAnswer(db, b, info, addr)
                                    else Failed(UNKNOWN_ADDRESS)
    ensures AnswersSearch(db, m, addr, r)
  {
    forall b | b in m && Contains(db, b, m[b], addr)
      ensures nearest.Some? && nearest.value.0 == b
    {
      if b < nearest.value.0 {
        assert Contains(db, b, m[b], nearest.value.0);
      }
    }
  }

  /** The nearest entry decides whether the query divides by zero. */
  lemma NearestDecides(db: Database, m: AllocEntries, addr: Addr, nearest: Option<(Addr, PointerInfo)>)
    requires db.WellFormed() && IsNearestBelow(m, addr, nearest)
    ensures NearestIsUnknown(db, m, addr)
       <==> nearest.Some? && nearest.value.0 < addr && !db.IsValid(nearest.value.1.typeId)
    ensures NearestIsUnsized(db, m, addr)
       <==> nearest.Some? && Contains(db, nearest.value.0, nearest.value.1, addr)
            && BlockAnswer(db, nearest.value.0, nearest.value.1, addr).DivisionByZero?
  {
    if nearest.Some? {
      var b := nearest.value.0;
      assert nearest == Some((b, m[b]));
      forall c | c in m && IsNearestBelow(m, addr, Some((c, m[c]))) ensures c == b {
      }
    }
  }

  /** With bases outside other allocations, the bounds check never divides by zero for a covered address. */
  lemma CoveredIsAnswered(db: Database, m: AllocEntries, addr: Addr, b: Addr)
    requires db.WellFormed() && BasesNotInside(db, m) && b in m && Contains(db, b, m[b], addr)
    ensures !NearestIsUnknown(db, m, addr)
  {
    KnownTypeHasSize(db, m[b].typeId);
    forall c | c in m && b <= c <= addr ensures c == b {
      ContainsBetween(db, b, m[b], c, addr);
    }
  }

  /** A query for a covered address answers for the allocation that covers it. */
  lemma CoveringAnswers(db: Database, m: AllocEntries, addr: Addr, b: Addr, r: Answer)
    requires db.WellFormed() && BasesNotInside(db, m) && b in m && Contains(db, b, m[b], addr)
    requires QueryAnswers(db, m, addr, r)
    ensures r == BlockAnswer(db, b, m[b], addr)
  {
    CoveredIsAnswered(db, m, addr, b);
  }

  /** Inside the bytes of an allocation the answer is that of the cell, at its base too. */
  lemma BlockAnswerIsCell(db: Database, base: Addr, info: PointerInfo, addr: Addr)
    requires db.WellFormed() && db.IsValid(info.typeId)
    requires base <= addr < base + info.count * db.GetTypeSize(info.typeId)
    ensures BlockAnswer(db, base, info, addr) == AnswerOf(Block(db, info.typeId, info.count)[addr - base])
  {
    if addr == base {
      RowFirst(info.typeId, info.count, Interior(db, info.typeId), 0);
    }
  }

  lemma ContainsBetween(db: Database, base: Addr, info: PointerInfo, c: Addr, addr: Addr)
    requires db.Sound() && base <= c <= addr && Contains(db, base, info, addr)
    ensures Contains(db, base, info, c)
  {
  }

  /** In allocation `info` at `base`, the outermost object that starts at `addr` has type `t` and `c` elements left. */
  ghost predicate StartsObject(db: Database, base: Addr, info: PointerInfo, addr: Addr, t: int, c: nat)
    requires db.WellFormed() && Contains(db, base, info, addr)
  {
    if addr == base then t == info.typeId && c == info.count
    else
      KnownTypeHasSize(db, info.typeId);
      Outermost(db, info.typeId, info.count, addr - base, t, c)
  }

  ghost predicate StartsNoObject(db: Database, base: Addr, info: PointerInfo, addr: Addr)
    requires db.WellFormed() && Contains(db, base, info, addr)
  {
    forall t, c: nat :: !StartsObject(db, base, info, addr, t, c)
  }

  lemma BlockAnswerMeaning(db: Database, base: Addr, info: PointerInfo, addr: Addr, t: int, c: nat)
    requires db.WellFormed() && Contains(db, base, info, addr)
    ensures BlockAnswer(db, base, info, addr) == OK(TypeAndCount(t, c)) <==> StartsObject(db, base, info, addr, t, c)
  {
    if addr != base {
      KnownTypeHasSize(db, info.typeId);
      StartIsOutermost(db, info.typeId, info.count, addr - base, t, c);
    }
  }

  /** In allocation `info` at `base`, the address is in the span of a member of unknown type, at any depth. */
  ghost predicate LiesInUnknown(db: Database, base: Addr, info: PointerInfo, addr: Addr)
    requires db.WellFormed() && Contains(db, base, info, addr)
  {
    addr != base &&
    (KnownTypeHasSize(db, info.typeId);
     InUnknownMember(db, info.typeId, info.count, addr - base))
  }

  lemma BlockAnswerUndefined(db: Database, base: Addr, info: PointerInfo, addr: Addr)
    requires db.WellFormed() && Contains(db, base, info, addr)
    ensures BlockAnswer(db, base, info, addr) == DivisionByZero <==> LiesInUnknown(db, base, info, addr)
  {
    if addr != base {
      KnownTypeHasSize(db, info.typeId);
      UnsizedIsUnknownMember(db, info.typeId, info.count, addr - base);
    }
  }

  lemma BlockAnswerBad(db: Database, base: Addr, info: PointerInfo, addr: Addr)
    requires db.WellFormed() && Contains(db, base, info, addr)
    ensures BlockAnswer(db, base, info, addr) == Failed(BAD_ALIGNMENT)
       <==> StartsNoObject(db, base, info, addr) && !LiesInUnknown(db, base, info, addr)
  {
    BlockAnswerUndefined(db, base, info, addr);
    var r := BlockAnswer(db, base, info, addr);
    if r.OK? {
      BlockAnswerMeaning(db, base, info, addr, r.value.typeId, r.value.count);
    } else {
      forall t, c: nat ensures !StartsObject(db, base, info, addr, t, c) {
        BlockAnswerMeaning(db, base, info, addr, t, c);
      }
    }
  }

  /**
   A found type is the outermost object at the address; bad alignment means that no object starts there; no answer
   means that the address is in the span of a member of unknown type.
   */
  lemma AnswersMeanOutermost(db: Database, m: AllocEntries, addr: Addr, r: Answer, t: int, c: nat)
    requires db.WellFormed() && AnswersSearch(db, m, addr, r)
    ensures r == OK(TypeAndCount(t, c)) <==>
              exists b :: b in m && Contains(db, b, m[b], addr) && StartsObject(db, b, m[b], addr, t, c)
    ensures r == Failed(BAD_ALIGNMENT) <==>
              exists b :: b in m && Contains(db, b, m[b], addr)
                       && StartsNoObject(db, b, m[b], addr) && !LiesInUnknown(db, b, m[b], addr)
    ensures r == DivisionByZero <==>
              exists b :: b in m && Contains(db, b, m[b], addr) && LiesInUnknown(db, b, m[b], addr)
  {
    forall b | b in m && Contains(db, b, m[b], addr)
      ensures r == OK(TypeAndCount(t, c)) <==> StartsObject(db, b, m[b], addr, t, c)
      ensures r == Failed(BAD_ALIGNMENT) <==> StartsNoObject(db, b, m[b], addr) && !LiesInUnknown(db, b, m[b], addr)
      ensures r == DivisionByZero <==> LiesInUnknown(db, b, m[b], addr)
    {
      BlockAnswerMeaning(db, b, m[b], addr, t, c);
      BlockAnswerBad(db, b, m[b], addr);
      BlockAnswerUndefined(db, b, m[b], addr);
    }
  }

  /** The public queries over the current allocations. */
  class RuntimeSystem {
    const db: Database
    const allocs: PointerMap
    const recorder: RequestRecorder

    constructor (db: Database, allocs: PointerMap)
      ensures this.db == db && this.allocs == allocs && fresh(recorder)
    {
      this.db, this.allocs := db, allocs;
      recorder := new RequestRecorder;
    }

    /** typeart_get_type: with every base outside other blocks, the answer of searching all allocations. */
    method GetType(addr: Addr) returns (r: Answer)
      requires db.WellFormed()
      modifies recorder
      ensures QueryAnswers(db, allocs.entries, addr, r)
      ensures recorder.addrChecked == old(recorder.addrChecked) + 1 && recorder.seen == old(recorder.seen) + {addr}
      // A miss is only counted when some allocation starts below the address.
      ensures recorder.addrMissing == old(recorder.addrMissing)
        + if r == Failed(UNKNOWN_ADDRESS) && (exists b :: b in allocs.entries && b <= addr) then 1 else 0
      ensures recorder.missing == old(recorder.missing)
        + if r == Failed(UNKNOWN_ADDRESS) && (exists b :: b in allocs.entries && b <= addr) then {addr} else {}
    {
      var alloc := allocs.Find(addr);
      recorder.IncUsedInRequest(addr);
      if alloc.Some? {
        r := GetTypeInfo(db, recorder, addr, alloc.value.0, alloc.value.1);
      } else {
        r := Failed(UNKNOWN_ADDRESS);
      }
      NearestDecides(db, allocs.entries, addr, alloc);
      if BasesNotInside(db, allocs.entries) && !NearestIsUnknown(db, allocs.entries, addr) {
        NearestBelowSuffices(db, allocs.entries, addr, alloc, r);
      }
    }

    /** typeart_get_containing_type: type, base and position within the block. */
    method GetContainingType(addr: Addr) returns (r: Result<(PointerInfo, Addr, Position)>)
      requires db.WellFormed()
      ensures r.DivisionByZero? <==> NearestIsUnknown(db, allocs.entries, addr)
      ensures r.Failed? ==> r.status == UNKNOWN_ADDRESS
      ensures BasesNotInside(db, allocs.entries) && r.Failed? ==>
                forall b :: b in allocs.entries ==> !Contains(db, b, allocs.entries[b], addr)
      ensures r.OK? ==> var (info, base, pos) := r.value;
                && base in allocs.entries && info == allocs.entries[base] && Contains(db, base, info, addr)
                && IsPosition(db, base, info, addr, pos)
                && IsNearestBelow(allocs.entries, addr, Some((base, info)))
      ensures r.Failed? ==> !NearestIsUnsized(db, allocs.entries, addr)
    {
      var alloc := allocs.Find(addr);
      NearestDecides(db, allocs.entries, addr, alloc);
      if alloc.Some? {
        var (base, info) := alloc.value;
        var position := GetContainingTypeInfo(db, addr, base, info);
        match position {
          case OK(pos) => return OK((info, base, pos));
          case DivisionByZero => return DivisionByZero;
          case Failed(status) => r := Failed(status);
        }
      } else {
        r := Failed(UNKNOWN_ADDRESS);
      }
      if BasesNotInside(db, allocs.entries) {
        forall b | b in allocs.entries ensures !Contains(db, b, allocs.entries[b], addr) {
          if alloc.Some? && b < alloc.value.0 {
            assert !Contains(db, b, allocs.entries[b], alloc.value.0);
          }
        }
      }
    }

    /**
     A client that asks for the containing type and then for subtypes until no byte offset is left, as the
     interface documents it, ends at the answer of typeart_get_type. It computes the address of each array element
     from what the step hands back; `at` is where it arrives.
     */
    method ResolveStepwise(addr: Addr) returns (r: Answer, at: Addr)
      requires db.WellFormed()
      ensures QueryAnswers(db, allocs.entries, addr, r)
      ensures r.OK? ==> at == addr
    {
      at := addr;
      var containing := GetContainingType(addr);
      match containing {
        case Failed(status) =>
          r := Failed(status);
        case DivisionByZero =>
          r := DivisionByZero;
        case OK(found) =>
          var (info, base, pos) := found;
          r, at := ResolvePosition(addr, base, info, pos);
          NearestDecides(db, allocs.entries, addr, Some((base, info)));
          if BasesNotInside(db, allocs.entries) {
            NotInsideIffCoveredOnce(db, allocs.entries);
          }
      }
    }

    /** The loop of the client, from the element of the containing type on. */
    method ResolvePosition(addr: Addr, base: Addr, info: PointerInfo, pos: Position) returns (r: Answer, at: Addr)
      requires db.WellFormed() && Contains(db, base, info, addr) && IsPosition(db, base, info, addr, pos)
      ensures r == BlockAnswer(db, base, info, addr)
      ensures r.OK? ==> at == addr
    {
      AnswerAtPosition(db, base, info, addr, pos);
      ghost var answer := BlockAnswer(db, base, info, addr);
      var typeId, count: nat, offset: nat := info.typeId, pos.count, pos.offset;
      at := base + (info.count - pos.count) * db.GetTypeSize(info.typeId);
      while offset != 0
        invariant at + offset == addr && Resolving(db, typeId, count, offset, answer)
        decreases if offset == 0 then 0 else 1 + db.Rank(typeId)
      {
        var layout := GetStructInfo(db, typeId);
        if !layout.OK? {
          return Failed(BAD_ALIGNMENT), at;
        }
        var step := GetSubTypeInfo(db, at, offset, layout.value);
        StepResolves(db, layout.value, at, offset, step, answer);
        match step {
          case Failed(status) => return Failed(status), at;
          case DivisionByZero => return DivisionByZero, at;
          case OK(sub) =>
            at := ElementAddress(db, layout.value, at, offset, sub);
            typeId, count, offset := sub.typeId, sub.count, sub.offset;
        }
      }
      r := OK(TypeAndCount(typeId, count));
    }
  }

  /** Where a stepwise resolution stands: at the object, or inside an element that has the answer at its byte. */
  ghost predicate Resolving(db: Database, typeId: int, count: nat, offset: nat, answer: Answer)
    requires db.WellFormed()
  {
    if offset == 0 then answer == OK(TypeAndCount(typeId, count))
    else
      && db.IsValid(typeId) && offset < |Interior(db, typeId)|
      && AnswerOf(Interior(db, typeId)[offset]) == answer
  }

  lemma StepResolves(db: Database, s: StructTypeInfo, base: Addr, offset: nat, r: Result<SubType>, answer: Answer)
    requires db.WellFormed() && db.GetStructInfo(s.typeId) == Some(s) && offset < s.extent
    requires StepAgrees(db, s, base, offset, r) && AnswerOf(Interior(db, s.typeId)[offset]) == answer
    ensures |s.offsets| == |s.memberTypes| == |s.arraySizes| == s.numMembers
    ensures !r.OK? ==> answer == if r.Failed? then Failed(r.status) else DivisionByZero
    ensures r.OK? ==> Resolving(db, r.value.typeId, r.value.count, r.value.offset, answer)
    ensures r.OK? ==> db.Rank(r.value.typeId) < db.Rank(s.typeId)
    ensures r.OK? ==> exists i :: 0 <= i < s.numMembers && LiesInMember(db, s, base, offset, i, r.value)
  {
    assert db.WellFormedLayout(s, db.index[s.typeId]);
    if r.OK? {
      var sub := r.value;
      var i :| 0 <= i < s.numMembers && LiesInMember(db, s, base, offset, i, sub);
      assert sub.offset < db.GetTypeSize(sub.typeId);
    }
  }

  /** An input without an answer: one allocation of an unknown type, and an address above its base. */
  method UnknownTypeExample() returns (r: Answer)
    ensures r.DivisionByZero?
  {
    var allocs := new PointerMap();
    var _ := allocs.Put(8, PointerInfo(300, 1, NULL));
    var runtime := new RuntimeSystem(EMPTY_DATABASE, allocs);
    r := runtime.GetType(9);
    NearestDecides(EMPTY_DATABASE, allocs.entries, 9, Some((8, PointerInfo(300, 1, NULL))));
  }

  /** A struct of eight bytes: a 32-bit integer, and from byte 4 on a member of an unknown type. */
  const PARTLY_KNOWN := StructTypeInfo(256, "s", 8, 2, [0, 4], [2, TYPEART_UNKNOWN_TYPE], [1, 1], USER_DEFINED)
  const PARTLY_KNOWN_DATABASE := Database([PARTLY_KNOWN], map[256 := 0])

  lemma PartlyKnown()
    ensures PARTLY_KNOWN_DATABASE.WellFormed()
    ensures LiesInUnknown(PARTLY_KNOWN_DATABASE, 8, PointerInfo(256, 1, NULL), 13)
  {
    var db := PARTLY_KNOWN_DATABASE;
    assert db.WellFormedLayout(PARTLY_KNOWN, 0);
    assert ElementUnknownAt(db, 256, 5) by {
      assert PARTLY_KNOWN.offsets[1] <= 5 < db.SpanLimit(PARTLY_KNOWN, 1) && MemberUnknownAt(db, 0, 1, 1);
    }
    assert InUnknownMember(db, 256, 1, 5) by {
      assert ElementAt(db.GetTypeSize(256), 1, 5, 0, 5);
    }
  }

  /** An input of the other kind: the type of the allocation is known, that of the member is not. */
  method UnknownMemberExample() returns (r: Answer)
    ensures r.DivisionByZero?
  {
    PartlyKnown();
    var allocs := new PointerMap();
    var info := PointerInfo(256, 1, NULL);
    var _ := allocs.Put(8, info);
    var runtime := new RuntimeSystem(PARTLY_KNOWN_DATABASE, allocs);
    r := runtime.GetType(13);
    NearestDecides(PARTLY_KNOWN_DATABASE, allocs.entries, 13, Some((8, info)));
    BlockAnswerUndefined(PARTLY_KNOWN_DATABASE, 8, info, 13);
  }

  /**
   The array element a step has arrived at. The step names the start of the member, so the client looks for the
   member that starts there, and adds the size of the elements it has passed.
   */
  method ElementAddress(db: Database, s: StructTypeInfo, base: Addr, offset: nat, sub: SubType) returns (at: Addr)
    requires db.WellFormed() && db.GetStructInfo(s.typeId) == Some(s) && offset < s.extent
    requires |s.offsets| == |s.memberTypes| == |s.arraySizes| == s.numMembers
    requires exists i :: 0 <= i < s.numMembers && LiesInMember(db, s, base, offset, i, sub)
    ensures at + sub.offset == base + offset
  {
    ghost var i :| 0 <= i < s.numMembers && LiesInMember(db, s, base, offset, i, sub);
    var k := GetMemberIndexAt(s, sub.baseAddr - base);
    MemberStartsAt(db, s, base, offset, i, sub, k);
    var passed: nat, size := s.arraySizes[k] - sub.count, db.GetTypeSize(sub.typeId);
    at := ElementStart(sub.baseAddr, passed, size);
  }

  function ElementStart(start: Addr, passed: nat, size: nat): (at: Addr)
    ensures at == start + passed * size
  {
    MulMono(0, passed, size);
    start + passed * size
  }

  /** Only one member with elements starts at an offset, and it is the one found for that offset. */
  lemma MemberStartsAt(db: Database, s: StructTypeInfo, base: Addr, offset: nat, i: nat, sub: SubType, k: nat)
    requires db.WellFormed() && db.GetStructInfo(s.typeId) == Some(s)
    requires |s.offsets| == |s.memberTypes| == |s.arraySizes| == s.numMembers
    requires i < s.numMembers && LiesInMember(db, s, base, offset, i, sub)
    requires k < s.numMembers && (k > 0 ==> s.offsets[k] <= s.offsets[i])
    requires k + 1 < s.numMembers ==> s.offsets[i] < s.offsets[k + 1]
    ensures k == i
  {
    var p := db.index[s.typeId];
    if k < i {
      OffsetsIncrease(db, p, k + 1, i);
    } else if i < k {
      assert db.WellFormedLayout(s, p);
      assert db.SpanEnd(s, i) <= db.SpanLimit(s, i);
      MulMono(1, s.arraySizes[i], db.GetTypeSize(sub.typeId));
      OffsetsIncrease(db, p, i + 1, k);
    }
  }
}
