/**
 The reference meaning of a type layout: one cell per byte, built by laying members, padding and array
 elements side by side. Nothing here divides or takes remainders; the resolver is proved against it.
 */
module TypePicture {
  import opened TypeDatabase

  /**
   A byte either starts an object of `typeId` with `count` elements from here on, or starts none: it is inside an
   atom, in padding, or in the span of a member whose type is unknown.
   */
  datatype Cell = Start(typeId: int, count: nat) | Inside | Padding | Unsized

  /** One element of type `id`; the first cell belongs to the outermost object *within* the element. */
  ghost function Interior(db: Database, id: int): (pic: seq<Cell>)
    requires db.WellFormed() && db.IsValid(id)
    ensures |pic| == db.GetTypeSize(id) > 0
    decreases db.Rank(id), 0, 0
  {
    KnownTypeHasSize(db, id);
    if id in db.index then
      assert db.WellFormedLayout(db.list[db.index[id]], db.index[id]);
      Members(db, db.index[id], db.list[db.index[id]].numMembers)
    else
      seq(db.GetTypeSize(id), _ => Inside)
  }

  function Fill(n: nat): seq<Cell> {
    seq(n, _ => Padding)
  }

  /** The bytes of entry `p` up to the start of what follows its first `k` members. */
  ghost function Members(db: Database, p: nat, k: nat): (pic: seq<Cell>)
    requires db.WellFormed() && p < |db.list| && k <= db.list[p].numMembers
    ensures |pic| == if k == 0 then 0 else db.SpanLimit(db.list[p], k - 1)
    decreases p, 3, k
  {
    if k == 0 then [] else
      assert db.WellFormedLayout(db.list[p], p);
      Members(db, p, k - 1) + MemberCells(db, p, k - 1)
  }

  /** The bytes from member i up to what follows it: its elements and then padding, or a span without a size. */
  ghost function MemberCells(db: Database, p: nat, i: nat): (pic: seq<Cell>)
    requires db.WellFormed() && p < |db.list| && i < db.list[p].numMembers
    ensures db.list[p].offsets[i] <= db.SpanLimit(db.list[p], i)
    ensures |pic| == db.SpanLimit(db.list[p], i) - db.list[p].offsets[i]
    decreases p, 2, 0
  {
    var s := db.list[p];
    assert db.WellFormedLayout(s, p);
    assert db.SpanEnd(s, i) <= db.SpanLimit(s, i);
    if db.IsValid(s.memberTypes[i]) then
      Block(db, s.memberTypes[i], s.arraySizes[i]) + Fill(db.SpanLimit(s, i) - db.SpanEnd(s, i))
    else
      seq(db.SpanLimit(s, i) - s.offsets[i], _ => Unsized)
  }

  /** `n` consecutive elements of type `id`. */
  ghost function Block(db: Database, id: int, n: nat): (pic: seq<Cell>)
    requires db.WellFormed() && db.IsValid(id)
    ensures |pic| == n * db.GetTypeSize(id)
    decreases db.Rank(id), 1
  {
    Row(id, n, Interior(db, id))
  }

  /** Equal elements side by side, each marked with how many are left. */
  function Row(id: int, n: nat, element: seq<Cell>): (pic: seq<Cell>)
    requires element != []
    ensures |pic| == n * |element|
  {
    if n == 0 then [] else
      assert n * |element| == |element| + (n - 1) * |element|;
      [Start(id, n)] + element[1..] + Row(id, n - 1, element)
  }

  lemma RowFirst(id: int, n: nat, element: seq<Cell>, o: nat)
    requires 0 < n && o < |element|
    ensures |element| <= |Row(id, n, element)|
    ensures Row(id, n, element)[o] == if o == 0 then Start(id, n) else element[o]
  {
    var first := [Start(id, n)] + element[1..];
    assert Row(id, n, element) == first + Row(id, n - 1, element);
    assert |first| == |element|;
  }

  lemma RowRest(id: int, n: nat, element: seq<Cell>, at: nat)
    requires 0 < n && element != [] && at < |Row(id, n - 1, element)|
    ensures |element| + at < |Row(id, n, element)|
    ensures Row(id, n, element)[|element| + at] == Row(id, n - 1, element)[at]
  {
    var first := [Start(id, n)] + element[1..];
    assert Row(id, n, element) == first + Row(id, n - 1, element);
    assert |first| == |element|;
  }

  lemma {:induction false} RowAt(id: int, n: nat, element: seq<Cell>, k: nat, o: nat)
    requires k < n && o < |element|
    ensures k * |element| + o < |Row(id, n, element)|
    ensures Row(id, n, element)[k * |element| + o] == if o == 0 then Start(id, n - k) else element[o]
    decreases n
  {
    if k == 0 {
      RowFirst(id, n, element, o);
    } else {
      RowAt(id, n - 1, element, k - 1, o);
      RowRest(id, n, element, (k - 1) * |element| + o);
      MulStep(k, |element|);
    }
  }

  lemma MulStep(k: nat, size: nat)
    requires 0 < k
    ensures k * size == size + (k - 1) * size
  {
  }

  /** A block repeats its element: element k starts with the mark of the n - k elements left. */
  lemma BlockAt(db: Database, id: int, n: nat, k: nat, o: nat)
    requires db.WellFormed() && db.IsValid(id)
    requires k < n && o < db.GetTypeSize(id)
    ensures k * db.GetTypeSize(id) + o < n * db.GetTypeSize(id)
    ensures Block(db, id, n)[k * db.GetTypeSize(id) + o]
         == if o == 0 then Start(id, n - k) else Interior(db, id)[o]
  {
    RowAt(id, n, Interior(db, id), k, o);
  }

  lemma MulMono(a: nat, b: nat, size: nat)
    requires a <= b
    ensures a * size <= b * size
  {
  }

  /** Within the span of member i lie the cells of that member. */
  lemma {:induction false} MembersAt(db: Database, p: nat, k: nat, i: nat, o: nat)
    requires db.WellFormed() && p < |db.list| && i < k <= db.list[p].numMembers
    requires db.list[p].offsets[i] <= o < db.SpanLimit(db.list[p], i)
    ensures o < |Members(db, p, k)|
    ensures Members(db, p, k)[o] == MemberCells(db, p, i)[o - db.list[p].offsets[i]]
    decreases k
  {
    assert db.WellFormedLayout(db.list[p], p);
    if i < k - 1 {
      MembersAt(db, p, k - 1, i, o);
    }
  }

  lemma {:induction false} OffsetsIncrease(db: Database, p: nat, i: nat, j: nat)
    requires db.WellFormed() && p < |db.list| && i <= j < db.list[p].numMembers
    ensures db.list[p].offsets[i] <= db.list[p].offsets[j]
    decreases j
  {
    if i < j {
      assert db.SpanEnd(db.list[p], j - 1) <= db.SpanLimit(db.list[p], j - 1);
      OffsetsIncrease(db, p, i, j - 1);
    }
  }

  /** The same for a whole entry. */
  lemma InteriorAt(db: Database, id: int, i: nat, o: nat)
    requires db.WellFormed() && id in db.index
    requires i < db.list[db.index[id]].numMembers
    requires db.list[db.index[id]].offsets[i] <= o < db.SpanLimit(db.list[db.index[id]], i)
    ensures o < |Interior(db, id)|
    ensures Interior(db, id)[o] == MemberCells(db, db.index[id], i)[o - db.list[db.index[id]].offsets[i]]
  {
    MembersAt(db, db.index[id], db.list[db.index[id]].numMembers, i, o);
  }

  /** What lies at byte x of the span of a member. */
  lemma MemberCellAt(db: Database, p: nat, i: nat, x: nat)
    requires db.WellFormed() && p < |db.list| && i < db.list[p].numMembers
    requires x < |MemberCells(db, p, i)|
    ensures var id, n := db.list[p].memberTypes[i], db.list[p].arraySizes[i];
            MemberCells(db, p, i)[x]
            == if !db.IsValid(id) then Unsized
               else if x < n * db.GetTypeSize(id) then Block(db, id, n)[x]
               else Padding
  {
  }

  // ----- What a start mark means -----

  /** Byte `o` of a block of `n` elements of `size` bytes is byte `x` of element `k`. */
  ghost predicate ElementAt(size: nat, n: nat, o: nat, k: nat, x: nat) {
    k < n && x < size && o == k * size + x
  }

  /** Counted from byte `o`, `count` elements of type `sub` remain in a (sub)object `depth` levels down. */
  ghost predicate Subobject(db: Database, id: int, n: nat, o: nat, depth: nat, sub: int, count: nat)
    requires db.WellFormed() && db.IsValid(id)
    decreases depth
  {
    if depth == 0 then
      sub == id && count <= n && ElementAt(db.GetTypeSize(id), n, o, n - count, 0)
    else
      exists k: nat, x: nat :: ElementAt(db.GetTypeSize(id), n, o, k, x) && MemberSubobject(db, id, x, depth, sub, count)
  }

  ghost predicate MemberSubobject(db: Database, id: int, x: nat, depth: nat, sub: int, count: nat)
    requires db.WellFormed() && db.IsValid(id) && depth > 0
    decreases depth, 0
  {
    id in db.index &&
    var s := db.list[db.index[id]];
    assert db.WellFormedLayout(s, db.index[id]);
    exists i :: 0 <= i < s.numMembers && s.offsets[i] <= x && db.IsValid(s.memberTypes[i])
             && Subobject(db, s.memberTypes[i], s.arraySizes[i], x - s.offsets[i], depth - 1, sub, count)
  }

  /** The least nested object that starts at byte `o`. */
  ghost predicate Outermost(db: Database, id: int, n: nat, o: nat, sub: int, count: nat)
    requires db.WellFormed() && db.IsValid(id)
  {
    exists depth: nat :: Subobject(db, id, n, o, depth, sub, count)
                 && forall d: nat, t, c: nat :: Subobject(db, id, n, o, d, t, c) ==> depth <= d
  }

  lemma SubobjectInRange(db: Database, id: int, n: nat, o: nat, depth: nat, sub: int, count: nat)
    requires db.WellFormed() && db.IsValid(id) && Subobject(db, id, n, o, depth, sub, count)
    ensures o < n * db.GetTypeSize(id)
  {
    var size := db.GetTypeSize(id);
    if depth == 0 {
      MulMono(n - count + 1, n, size);
    } else {
      var k: nat, x: nat :| ElementAt(size, n, o, k, x) && MemberSubobject(db, id, x, depth, sub, count);
      MulMono(k + 1, n, size);
    }
  }

  lemma ElementUnique(size: nat, n: nat, o: nat, k: nat, x: nat, k': nat, x': nat)
    requires ElementAt(size, n, o, k, x) && ElementAt(size, n, o, k', x')
    ensures k == k' && x == x'
  {
    if k < k' { MulMono(k + 1, k', size); }
    if k' < k { MulMono(k' + 1, k, size); }
  }

  lemma {:induction false} ElementExists(size: nat, n: nat, o: nat) returns (k: nat, x: nat)
    requires o < n * size
    ensures ElementAt(size, n, o, k, x)
  {
    if o < size {
      k, x := 0, o;
      assert n > 0;
    } else {
      k, x := ElementExists(size, n - 1, o - size);
      k := k + 1;
    }
  }

  /** The member whose bytes, together with the padding behind it, hold byte `x`. */
  lemma {:induction false} MemberHolding(db: Database, p: nat, n: nat, x: nat) returns (i: nat)
    requires db.WellFormed() && p < |db.list| && 0 < n <= db.list[p].numMembers
    requires x < db.SpanLimit(db.list[p], n - 1)
    ensures i < n && db.list[p].offsets[i] <= x < db.SpanLimit(db.list[p], i)
    decreases n
  {
    assert db.WellFormedLayout(db.list[p], p);
    if db.list[p].offsets[n - 1] <= x {
      i := n - 1;
    } else {
      i := MemberHolding(db, p, n - 1, x);
    }
  }

  lemma HolderUnique(db: Database, p: nat, i: nat, j: nat, x: nat)
    requires db.WellFormed() && p < |db.list| && i < db.list[p].numMembers && j < db.list[p].numMembers
    requires db.list[p].offsets[i] <= x < db.SpanLimit(db.list[p], i)
    requires db.list[p].offsets[j] <= x < db.SpanLimit(db.list[p], j)
    ensures i == j
  {
    if j < i { OffsetsIncrease(db, p, j + 1, i); }
    if i < j { OffsetsIncrease(db, p, i + 1, j); }
  }

  /** Past its first byte, an element holds no object of its own type: everything is decided by one member. */
  lemma SubobjectDescends(db: Database, id: int, n: nat, o: nat, k: nat, x: nat, i: nat, d: nat, sub: int, count: nat)
    requires db.WellFormed() && id in db.index
    requires ElementAt(db.GetTypeSize(id), n, o, k, x) && x > 0
    requires i < db.list[db.index[id]].numMembers
    requires db.list[db.index[id]].offsets[i] <= x < db.SpanLimit(db.list[db.index[id]], i)
    ensures Subobject(db, id, n, o, d, sub, count)
       <==> d > 0 && var s := db.list[db.index[id]];
                     db.IsValid(s.memberTypes[i])
                     && Subobject(db, s.memberTypes[i], s.arraySizes[i], x - s.offsets[i], d - 1, sub, count)
  {
    var p := db.index[id];
    var s := db.list[p];
    assert db.WellFormedLayout(s, p);
    if Subobject(db, id, n, o, d, sub, count) {
      if d == 0 {
        ElementUnique(db.GetTypeSize(id), n, o, k, x, n - count, 0);
      } else {
        var k': nat, x': nat :| ElementAt(db.GetTypeSize(id), n, o, k', x') && MemberSubobject(db, id, x', d, sub, count);
        ElementUnique(db.GetTypeSize(id), n, o, k, x, k', x');
        var j :| 0 <= j < s.numMembers && s.offsets[j] <= x && db.IsValid(s.memberTypes[j])
              && Subobject(db, s.memberTypes[j], s.arraySizes[j], x - s.offsets[j], d - 1, sub, count);
        SubobjectInRange(db, s.memberTypes[j], s.arraySizes[j], x - s.offsets[j], d - 1, sub, count);
        assert x < db.SpanEnd(s, j) <= db.SpanLimit(s, j);
        HolderUnique(db, p, i, j, x);
      }
    }
    if d > 0 && db.IsValid(s.memberTypes[i])
       && Subobject(db, s.memberTypes[i], s.arraySizes[i], x - s.offsets[i], d - 1, sub, count) {
      assert MemberSubobject(db, id, x, d, sub, count);
    }
  }

  /** A cell is marked with (sub, count) exactly when that is the outermost object starting at the byte. */
  lemma {:induction false} StartIsOutermost(db: Database, id: int, n: nat, o: nat, sub: int, count: nat)
    requires db.WellFormed() && db.IsValid(id) && o < |Block(db, id, n)|
    ensures Block(db, id, n)[o] == Start(sub, count) <==> Outermost(db, id, n, o, sub, count)
    decreases db.Rank(id)
  {
    var size := db.GetTypeSize(id);
    var k, x := ElementExists(size, n, o);
    BlockAt(db, id, n, k, x);
    if x == 0 {
      assert Subobject(db, id, n, o, 0, id, n - k);
      if Outermost(db, id, n, o, sub, count) {
        var depth: nat :| Subobject(db, id, n, o, depth, sub, count)
                  && forall d: nat, t, c: nat :: Subobject(db, id, n, o, d, t, c) ==> depth <= d;
        assert depth == 0;
        ElementUnique(size, n, o, k, 0, n - count, 0);
      }
    } else if id in db.index {
      InnerStartIsOutermost(db, id, n, o, k, x, sub, count);
    } else {
      forall d: nat, t, c: nat ensures !Subobject(db, id, n, o, d, t, c) {
        if Subobject(db, id, n, o, d, t, c) && d == 0 {
          ElementUnique(size, n, o, k, x, n - c, 0);
        }
      }
    }
  }

  lemma {:induction false} InnerStartIsOutermost(db: Database, id: int, n: nat, o: nat, k: nat, x: nat, sub: int, count: nat)
    requires db.WellFormed() && id in db.index && o < |Block(db, id, n)|
    requires ElementAt(db.GetTypeSize(id), n, o, k, x) && x > 0
    ensures Interior(db, id)[x] == Start(sub, count) <==> Outermost(db, id, n, o, sub, count)
    decreases db.Rank(id), 0
  {
    var p := db.index[id];
    var s := db.list[p];
    assert db.WellFormedLayout(s, p);
    var i := MemberHolding(db, p, s.numMembers, x);
    InteriorAt(db, id, i, x);
    var t, m, y := s.memberTypes[i], s.arraySizes[i], x - s.offsets[i];
    MemberCellAt(db, p, i, y);
    if !db.IsValid(t) {
      NothingInUnknown(db, id, n, o, k, x, i, sub, count);
      return;
    }
    MemberDecides(db, id, n, o, k, x, i);
    OutermostShifts(db, id, n, o, t, m, y, sub, count);
    if y < |Block(db, t, m)| {
      StartIsOutermost(db, t, m, y, sub, count);
    } else {
      NothingOutside(db, t, m, y, sub, count);
    }
  }

  /** The objects at byte `o` of one block are those at byte `y` of another, one level deeper. */
  ghost predicate DecidedBy(db: Database, id: int, n: nat, o: nat, t: int, m: nat, y: nat)
    requires db.WellFormed() && db.IsValid(id) && db.IsValid(t)
  {
    forall d: nat, u, c: nat ::
      Subobject(db, id, n, o, d, u, c) <==> d > 0 && Subobject(db, t, m, y, d - 1, u, c)
  }

  lemma MemberDecides(db: Database, id: int, n: nat, o: nat, k: nat, x: nat, i: nat)
    requires db.WellFormed() && id in db.index
    requires ElementAt(db.GetTypeSize(id), n, o, k, x) && x > 0
    requires i < db.list[db.index[id]].numMembers
    requires db.list[db.index[id]].offsets[i] <= x < db.SpanLimit(db.list[db.index[id]], i)
    requires db.IsValid(db.list[db.index[id]].memberTypes[i])
    ensures var s := db.list[db.index[id]];
            DecidedBy(db, id, n, o, s.memberTypes[i], s.arraySizes[i], x - s.offsets[i])
  {
    var s := db.list[db.index[id]];
    assert db.WellFormedLayout(s, db.index[id]);
    forall d: nat, u, c: nat
      ensures Subobject(db, id, n, o, d, u, c)
         <==> d > 0 && Subobject(db, s.memberTypes[i], s.arraySizes[i], x - s.offsets[i], d - 1, u, c)
    {
      SubobjectDescends(db, id, n, o, k, x, i, d, u, c);
    }
  }

  /** No object starts in the span of a member of unknown type. */
  lemma NothingInUnknown(db: Database, id: int, n: nat, o: nat, k: nat, x: nat, i: nat, sub: int, count: nat)
    requires db.WellFormed() && id in db.index
    requires ElementAt(db.GetTypeSize(id), n, o, k, x) && x > 0
    requires i < db.list[db.index[id]].numMembers && !db.IsValid(db.list[db.index[id]].memberTypes[i])
    requires db.list[db.index[id]].offsets[i] <= x < db.SpanLimit(db.list[db.index[id]], i)
    ensures !Outermost(db, id, n, o, sub, count)
  {
    forall d: nat, u, c: nat ensures !Subobject(db, id, n, o, d, u, c) {
      SubobjectDescends(db, id, n, o, k, x, i, d, u, c);
    }
  }

  lemma NothingOutside(db: Database, id: int, n: nat, o: nat, sub: int, count: nat)
    requires db.WellFormed() && db.IsValid(id) && n * db.GetTypeSize(id) <= o
    ensures !Outermost(db, id, n, o, sub, count)
  {
    forall d: nat, u, c: nat ensures !Subobject(db, id, n, o, d, u, c) {
      if Subobject(db, id, n, o, d, u, c) { SubobjectInRange(db, id, n, o, d, u, c); }
    }
  }

  lemma OutermostShifts(db: Database, id: int, n: nat, o: nat, t: int, m: nat, y: nat, sub: int, count: nat)
    requires db.WellFormed() && db.IsValid(id) && db.IsValid(t)
    requires DecidedBy(db, id, n, o, t, m, y)
    ensures Outermost(db, id, n, o, sub, count) <==> Outermost(db, t, m, y, sub, count)
  {
    if Outermost(db, id, n, o, sub, count) {
      var depth: nat :| Subobject(db, id, n, o, depth, sub, count)
                && forall d: nat, u, c: nat :: Subobject(db, id, n, o, d, u, c) ==> depth <= d;
      forall d: nat, u, c: nat | Subobject(db, t, m, y, d, u, c) ensures depth - 1 <= d {
        assert Subobject(db, id, n, o, d + 1, u, c);
      }
      assert Subobject(db, t, m, y, depth - 1, sub, count);
    }
    if Outermost(db, t, m, y, sub, count) {
      var depth: nat :| Subobject(db, t, m, y, depth, sub, count)
                && forall d: nat, u, c: nat :: Subobject(db, t, m, y, d, u, c) ==> depth <= d;
      forall d: nat, u, c: nat | Subobject(db, id, n, o, d, u, c) ensures depth + 1 <= d {
        assert Subobject(db, t, m, y, d - 1, u, c);
      }
      assert Subobject(db, id, n, o, depth + 1, sub, count);
    }
  }

  // ----- What an unsized cell means -----

  /** Past the start of an element, the byte is in the span of a member of unknown type, at any depth. */
  ghost predicate InUnknownMember(db: Database, id: int, n: nat, o: nat)
    requires db.WellFormed() && db.IsValid(id)
    decreases db.Rank(id), 1
  {
    exists k: nat, x: nat :: ElementAt(db.GetTypeSize(id), n, o, k, x) && x > 0 && ElementUnknownAt(db, id, x)
  }

  ghost predicate ElementUnknownAt(db: Database, id: int, x: nat)
    requires db.WellFormed() && db.IsValid(id)
    decreases db.Rank(id), 0
  {
    id in db.index &&
    var s := db.list[db.index[id]];
    assert db.WellFormedLayout(s, db.index[id]);
    exists i :: 0 <= i < s.numMembers && s.offsets[i] <= x < db.SpanLimit(s, i)
             && MemberUnknownAt(db, db.index[id], i, x - s.offsets[i])
  }

  /** A cell is unsized exactly when its byte is in the span of a member of unknown type. */
  lemma {:induction false} UnsizedIsUnknownMember(db: Database, id: int, n: nat, o: nat)
    requires db.WellFormed() && db.IsValid(id) && o < |Block(db, id, n)|
    ensures Block(db, id, n)[o] == Unsized <==> InUnknownMember(db, id, n, o)
    decreases db.Rank(id), 1
  {
    var size := db.GetTypeSize(id);
    var k, x := ElementExists(size, n, o);
    BlockAt(db, id, n, k, x);
    if x > 0 {
      InteriorUnsized(db, id, x);
    }
    if InUnknownMember(db, id, n, o) {
      var k': nat, x': nat :| ElementAt(size, n, o, k', x') && x' > 0 && ElementUnknownAt(db, id, x');
      ElementUnique(size, n, o, k, x, k', x');
    }
  }

  /** Member i of entry p is of an unknown type, or has its byte y in the span of such a member. */
  ghost predicate MemberUnknownAt(db: Database, p: nat, i: nat, y: nat)
    requires db.WellFormed() && p < |db.list| && i < db.list[p].numMembers
    decreases p, 2
  {
    var s := db.list[p];
    assert db.WellFormedLayout(s, p);
    db.IsValid(s.memberTypes[i]) ==> InUnknownMember(db, s.memberTypes[i], s.arraySizes[i], y)
  }

  /** The member that holds the byte decides. */
  lemma HolderDecides(db: Database, id: int, i: nat, x: nat)
    requires db.WellFormed() && id in db.index && i < db.list[db.index[id]].numMembers
    requires db.list[db.index[id]].offsets[i] <= x < db.SpanLimit(db.list[db.index[id]], i)
    ensures ElementUnknownAt(db, id, x) <==> MemberUnknownAt(db, db.index[id], i, x - db.list[db.index[id]].offsets[i])
  {
    var s := db.list[db.index[id]];
    forall j | 0 <= j < s.numMembers && s.offsets[j] <= x < db.SpanLimit(s, j) ensures j == i {
      HolderUnique(db, db.index[id], i, j, x);
    }
  }

  lemma {:induction false} MemberCellUnsized(db: Database, p: nat, i: nat, y: nat)
    requires db.WellFormed() && p < |db.list| && i < db.list[p].numMembers && y < |MemberCells(db, p, i)|
    ensures MemberCells(db, p, i)[y] == Unsized <==> MemberUnknownAt(db, p, i, y)
    decreases p, 3
  {
    assert db.WellFormedLayout(db.list[p], p);
    MemberCellAt(db, p, i, y);
    MemberUnsized(db, db.list[p].memberTypes[i], db.list[p].arraySizes[i], y);
  }

  lemma {:induction false} InteriorUnsized(db: Database, id: int, x: nat)
    requires db.WellFormed() && db.IsValid(id) && x < |Interior(db, id)|
    ensures Interior(db, id)[x] == Unsized <==> ElementUnknownAt(db, id, x)
    decreases db.Rank(id), 0
  {
    if id in db.index {
      var p := db.index[id];
      assert db.WellFormedLayout(db.list[p], p);
      var i := MemberHolding(db, p, db.list[p].numMembers, x);
      InteriorAt(db, id, i, x);
      MemberCellUnsized(db, p, i, x - db.list[p].offsets[i]);
      HolderDecides(db, id, i, x);
    }
  }

  /** The same for the run of a member, which has no bytes behind its elements. */
  lemma {:induction false} MemberUnsized(db: Database, id: int, n: nat, o: nat)
    requires db.WellFormed()
    ensures db.IsValid(id) ==> (InUnknownMember(db, id, n, o) <==> o < |Block(db, id, n)| && Block(db, id, n)[o] == Unsized)
    decreases db.Rank(id), 2
  {
    if db.IsValid(id) {
      if o < |Block(db, id, n)| {
        UnsizedIsUnknownMember(db, id, n, o);
      } else if InUnknownMember(db, id, n, o) {
        var k: nat, x: nat :| ElementAt(db.GetTypeSize(id), n, o, k, x) && x > 0 && ElementUnknownAt(db, id, x);
        MulMono(k + 1, n, db.GetTypeSize(id));
      }
    }
  }
}
