/** The ordered map from base addresses to allocation records; every operation is one locked step. */
module AllocMap {
  import opened Wrappers
  import opened TypeDatabase

  type Addr = nat

  const NULL: Addr := 0

  datatype PointerInfo = PointerInfo(typeId: int, count: nat, debug: Addr)

  const DEFAULT_INFO := PointerInfo(-1, 0, NULL)

  type AllocEntries = map<Addr, PointerInfo>

  /** The entry with the greatest key not above `addr`, if there is one. */
  ghost predicate IsNearestBelow(m: AllocEntries, addr: Addr, r: Option<(Addr, PointerInfo)>) {
    match r
    case None => forall k :: k in m ==> addr < k
    case Some(e) => e.0 in m && m[e.0] == e.1 && e.0 <= addr && forall k :: k in m && k <= addr ==> k <= e.0
  }

  /** The entries left after removing the addresses one after the other. */
  function Erased(m: AllocEntries, addrs: seq<Addr>): AllocEntries {
    if addrs == [] then m else Erased(m, addrs[..|addrs| - 1]) - {addrs[|addrs| - 1]}
  }

  lemma {:induction false} ErasedMeaning(m: AllocEntries, addrs: seq<Addr>)
    ensures forall a :: a in Erased(m, addrs) <==> a in m && a !in addrs
    ensures forall a :: a in Erased(m, addrs) ==> Erased(m, addrs)[a] == m[a]
    decreases |addrs|
  {
    if addrs != [] {
      var init, last := addrs[..|addrs| - 1], addrs[|addrs| - 1];
      ErasedMeaning(m, init);
      assert addrs == init + [last];
    }
  }

  /** What removing `addrs` one after the other finds: each entry once, and nothing for a repeated address. */
  ghost predicate IsRemovalLog(m: AllocEntries, addrs: seq<Addr>, log: seq<Option<PointerInfo>>) {
    |log| == |addrs| &&
    forall i :: 0 <= i < |addrs| ==>
      log[i] == if addrs[i] in m && addrs[i] !in addrs[..i] then Some(m[addrs[i]]) else None
  }

  lemma {:induction false} LeastExists(keys: set<Addr>)
    requires keys != {}
    ensures exists k :: k in keys && forall j :: j in keys ==> k <= j
  {
    var k :| k in keys;
    if keys - {k} != {} {
      LeastExists(keys - {k});
      var l :| l in keys - {k} && forall j :: j in keys - {k} ==> l <= j;
      assert (if k < l then k else l) in keys;
      forall j | j in keys ensures (if k < l then k else l) <= j {
        assert j == k || j in keys - {k};
      }
    } else {
      assert keys == {k};
    }
  }

  lemma {:induction false} GreatestExists(keys: set<Addr>)
    requires keys != {}
    ensures exists k :: k in keys && forall j :: j in keys ==> j <= k
  {
    var k :| k in keys;
    if keys - {k} != {} {
      GreatestExists(keys - {k});
      var l :| l in keys - {k} && forall j :: j in keys - {k} ==> j <= l;
      assert (if l < k then k else l) in keys;
      forall j | j in keys ensures j <= (if l < k then k else l) {
        assert j == k || j in keys - {k};
      }
    } else {
      assert keys == {k};
    }
  }

  class PointerMap {
    var entries: AllocEntries

    constructor ()
      ensures entries == map[]
    {
      entries := map[];
    }

    method Put(addr: Addr, data: PointerInfo) returns (overridden: bool)
      modifies this
      ensures entries == old(entries)[addr := data]
      ensures overridden <==> addr in old(entries) && old(entries)[addr].typeId != -1
    {
      if addr !in entries {
        entries := entries[addr := DEFAULT_INFO];
      }
      var def := entries[addr];
      overridden := def.typeId != -1;
      entries := entries[addr := data];
    }

    /** Iterator to the first entry. */
    method Begin() returns (it: Addr)
      requires entries != map[]
      ensures it in entries && forall k :: k in entries ==> it <= k
    {
      LeastExists(entries.Keys);
      it :| it in entries.Keys && forall k :: k in entries.Keys ==> it <= k;
    }

    /** Iterator to the last of the entries whose key is below `limit`, or of all entries. */
    method LastBelow(limit: Option<Addr>) returns (it: Addr)
      requires exists k :: k in entries && (limit.Some? ==> k < limit.value)
      ensures it in entries && (limit.Some? ==> it < limit.value)
      ensures forall k :: k in entries && (limit.Some? ==> k < limit.value) ==> k <= it
    {
      var below := set k | k in entries.Keys && (limit.Some? ==> k < limit.value);
      assert forall k :: k in entries && (limit.Some? ==> k < limit.value) ==> k in below;
      GreatestExists(below);
      it :| it in below && forall k :: k in below ==> k <= it;
    }

    /** Iterator to the first entry whose key is not below `addr`; None is the end iterator. */
    method LowerBound(addr: Addr) returns (it: Option<Addr>)
      ensures it.None? ==> forall k :: k in entries ==> k < addr
      ensures it.Some? ==> it.value in entries && addr <= it.value
      ensures it.Some? ==> forall k :: k in entries && addr <= k ==> it.value <= k
    {
      var above := set k | k in entries.Keys && addr <= k;
      assert forall k :: k in entries && addr <= k ==> k in above;
      if above == {} {
        return None;
      }
      LeastExists(above);
      var k :| k in above && forall j :: j in above ==> k <= j;
      it := Some(k);
    }

    method Find(addr: Addr) returns (r: Option<(Addr, PointerInfo)>)
      ensures IsNearestBelow(entries, addr, r)
    {
      if entries == map[] {
        return None;
      }
      var first := Begin();
      if addr < first {
        return None;
      }
      var it := LowerBound(addr);
      if it.None? {
        var last := LastBelow(None);
        return Some((last, entries[last]));
      }
      if it.value == addr {
        return Some((addr, entries[addr]));
      }
      var prev := LastBelow(it);
      r := Some((prev, entries[prev]));
    }

    method Remove(addr: Addr) returns (removed: Option<PointerInfo>)
      modifies this
      ensures entries == old(entries) - {addr}
      ensures removed == if addr in old(entries) then Some(old(entries)[addr]) else None
    {
      if addr in entries {
        removed := Some(entries[addr]);
        entries := entries - {addr};
      } else {
        removed := None;
        assert entries - {addr} == entries;
      }
    }

    method RemoveRange(addrs: seq<Addr>) returns (log: seq<Option<PointerInfo>>)
      modifies this
      ensures entries == Erased(old(entries), addrs)
      ensures IsRemovalLog(old(entries), addrs, log)
    {
      log := [];
      for i := 0 to |addrs|
        invariant entries == Erased(old(entries), addrs[..i])
        invariant IsRemovalLog(old(entries), addrs[..i], log)
      {
        ErasedMeaning(old(entries), addrs[..i]);
        var removed := Remove(addrs[i]);
        log := log + [removed];
        assert addrs[..i + 1][..i] == addrs[..i];
        assert addrs[..i + 1] == addrs[..i] + [addrs[i]];
        assert forall j :: 0 <= j <= i ==> addrs[..i + 1][..j] == addrs[..j];
        assert forall j :: 0 <= j < i ==> addrs[..i][..j] == addrs[..j];
      }
      assert addrs[..|addrs|] == addrs;
    }
  }
}
