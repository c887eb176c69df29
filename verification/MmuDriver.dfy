/** One MMU region in place: node objects that are cut, joined and moved between the free list and the
    map list, and the page-table words they stand for. Every method computes the function of the same
    purpose in MmuSpec and MmuMapping. */
module MmuDriver {
  import opened Wrappers
  import opened MmuSpec
  import opened MmuRegions
  import opened MmuMapping
  import opened MmuWidths

  class MmuNode {
    var mtlbStart: nat
    var stlbStart: nat
    var mtlbEnd: nat
    var stlbEnd: nat
    var pages: nat
    var key: Key
    ghost var phys: seq<bv64>

    constructor (mtlbStart: nat, stlbStart: nat, mtlbEnd: nat, stlbEnd: nat, pages: nat, key: Key,
                 ghost phys: seq<bv64>)
      ensures Is(Node(mtlbStart, stlbStart, mtlbEnd, stlbEnd, pages, key, phys))
    {
      this.mtlbStart, this.stlbStart, this.mtlbEnd, this.stlbEnd := mtlbStart, stlbStart, mtlbEnd, stlbEnd;
      this.pages, this.key, this.phys := pages, key, phys;
    }

    ghost predicate Is(n: Node)
      reads this
    {
      n == Node(mtlbStart, stlbStart, mtlbEnd, stlbEnd, pages, key, phys)
    }
  }

  /** No node reaches past the end of the table. */
  predicate InTable(s: seq<Node>, entries: nat) {
    forall i :: 0 <= i < |s| ==> Start(s[i]) + s[i].pages <= entries
  }

  /** The methods may be called in every state the region can reach, and the address they return is
      not cut off. */
  lemma StaysInTable(s: State, lo: nat, top: nat, hi: nat)
    requires WidthInv(s, lo, top, hi) && |s.table| <= TABLE_ENTRIES
    ensures InTable(s.r.free, |s.table|) && InTable(s.r.mapped, |s.table|)
    ensures forall n :: n in s.r.mapped ==> BusAddress(n) % 0x1_0000_0000 == Start(n) * 4096
  {
    forall n | n in s.r.mapped
      ensures Start(n) + n.pages <= |s.table| && BusAddress(n) % 0x1_0000_0000 == Start(n) * 4096
    {
      NodeInside(TrimState(s).r, lo, top, n);
      BusAddressIsLinear(n);
    }
  }

  /** Freeing in two steps: the node joins what it touches, and the result what it touches in turn. */
  lemma JoinsTwice(free: seq<Node>, n: Node, j: nat)
    requires j == FindTouching(free, n, 0) < |free|
    ensures InsertFree(free, n) ==
              if Meets(free[j], n) then SecondJoinBehind(free[j := JoinBack(free[j], n)], j)
              else SecondJoinInFront(free[j := JoinFront(n, free[j])], j)
  {
  }

  class MmuRegion {
    var free: seq<MmuNode>
    var mapped: seq<MmuNode>
    const table: array<bv32>
    ghost var freeNodes: seq<Node>
    ghost var mappedNodes: seq<Node>

    /** The ghost lists describe the objects, and no object is on the lists twice. */
    ghost predicate Valid()
      reads this, free, mapped
    {
      && |free| == |freeNodes| && |mapped| == |mappedNodes|
      && (forall i :: 0 <= i < |free| ==> free[i].Is(freeNodes[i]))
      && (forall i :: 0 <= i < |mapped| ==> mapped[i].Is(mappedNodes[i]))
      && (forall i, j :: 0 <= i < j < |free| ==> free[i] != free[j])
      && (forall i, j :: 0 <= i < j < |mapped| ==> mapped[i] != mapped[j])
      && forall i, j :: 0 <= i < |free| && 0 <= j < |mapped| ==> free[i] != mapped[j]
    }

    ghost function Abs(): State
      reads this, table
    {
      State(Region(freeNodes, mappedNodes), table[..])
    }

    /** CreateNode: a region from one page number to another that claims a number of pages, for a table
        it shares with other regions. */
    constructor (table: array<bv32>, mtlbStart: nat, stlbStart: nat, mtlbEnd: nat, stlbEnd: nat, pages: nat)
      ensures Valid() && this.table == table && fresh(free) && mapped == []
      ensures Abs() ==
              State(Region([Node(mtlbStart, stlbStart, mtlbEnd, stlbEnd, pages, Key(0, 0), [])], []), table[..])
    {
      var n := new MmuNode(mtlbStart, stlbStart, mtlbEnd, stlbEnd, pages, Key(0, 0), []);
      this.table := table;
      free, mapped := [n], [];
      freeNodes, mappedNodes := [Node(mtlbStart, stlbStart, mtlbEnd, stlbEnd, pages, Key(0, 0), [])], [];
    }

    /** FindFreeNode; |free| if there is none. */
    method FindFreeNode(n: nat) returns (i: nat)
      requires Valid()
      ensures i <= |free| && FindFree(freeNodes, n) == if i < |free| then Some(i) else None
    {
      i := 0;
      while i < |free| && free[i].pages < n
        invariant i <= |free| && forall j :: 0 <= j < i ==> freeNodes[j].pages < n
      {
        i := i + 1;
      }
    }

    /** Gives the free node at i new bounds and a new page count. */
    method Resize(i: nat, mtlbStart: nat, stlbStart: nat, mtlbEnd: nat, stlbEnd: nat, pages: nat)
      requires Valid() && i < |free|
      modifies free[i], this`freeNodes
      ensures Valid()
      ensures freeNodes == old(freeNodes)[i := old(freeNodes)[i].(
                mtlbStart := mtlbStart, stlbStart := stlbStart, mtlbEnd := mtlbEnd, stlbEnd := stlbEnd, pages := pages)]
    {
      var p := free[i];
      p.mtlbStart, p.stlbStart, p.mtlbEnd, p.stlbEnd, p.pages := mtlbStart, stlbStart, mtlbEnd, stlbEnd, pages;
      freeNodes := freeNodes[i := freeNodes[i].(
        mtlbStart := mtlbStart, stlbStart := stlbStart, mtlbEnd := mtlbEnd, stlbEnd := stlbEnd, pages := pages)];
    }

    /** DeleteNode on the free list. */
    method DeleteFree(i: nat)
      requires Valid() && i < |free|
      modifies this`free, this`freeNodes
      ensures Valid() && freeNodes == RemoveAt(old(freeNodes), i)
      ensures free == old(free)[..i] + old(free)[i + 1..]
    {
      free, freeNodes := free[..i] + free[i + 1..], RemoveAt(freeNodes, i);
    }

    /** SplitFreeNode: the front of the free node at i becomes the first mapped node. */
    method SplitFreeNode(i: nat, n: nat, key: Key, ghost phys: seq<bv64>)
      requires Valid() && i < |free| && n <= freeNodes[i].pages
      modifies this`free, this`mapped, this`freeNodes, this`mappedNodes, free
      ensures Valid() && Region(freeNodes, mappedNodes) == Split(old(Abs().r), i, n, key, phys)
    {
      var f := free[i];
      var mtlbEnd := (n + f.stlbStart) / MMU_STLB_4K_ENTRY_NUM + f.mtlbStart;
      var stlbEnd := (n + f.stlbStart) % MMU_STLB_4K_ENTRY_NUM;
      var p := new MmuNode(f.mtlbStart, f.stlbStart, mtlbEnd, stlbEnd, n, key, phys);
      mapped, mappedNodes := [p] + mapped, [FrontPart(freeNodes[i], n, key, phys)] + mappedNodes;
      if f.pages == n {
        DeleteFree(i);
      } else {
        Resize(i, mtlbEnd, stlbEnd, f.mtlbEnd, f.stlbEnd, f.pages - n);
      }
    }

    /** The page-table loop of MMUMemNodeMap. */
    method WriteEntries(start: nat, phys: seq<bv64>)
      requires start + |phys| <= table.Length
      modifies table
      ensures table[..] == Written(old(table[..]), start, phys)
    {
      for i := 0 to |phys|
        invariant table[..] == Written(old(table[..]), start, phys[..i])
      {
        table[start + i] := Entry(phys[i]);
        assert phys[..i + 1][..i] == phys[..i];
      }
      assert phys[..|phys|] == phys;
    }

    /** The page-table loop of MMUMemNodeUnmap. */
    method ClearEntries(start: nat, n: nat)
      requires start + n <= table.Length
      modifies table
      ensures table[..] == Cleared(old(table[..]), start, n)
    {
      for i := 0 to n
        invariant table[..] == Cleared(old(table[..]), start, i)
      {
        table[start + i] := 0;
      }
    }

    /** Takes a node off the map list. */
    method DeleteMapped(k: nat)
      requires Valid() && k < |mapped|
      modifies this`mapped, this`mappedNodes
      ensures Valid() && mappedNodes == RemoveAt(old(mappedNodes), k)
      ensures mapped == old(mapped)[..k] + old(mapped)[k + 1..]
    {
      mapped, mappedNodes := mapped[..k] + mapped[k + 1..], RemoveAt(mappedNodes, k);
    }

    /** The first search of MergeNode. */
    method Touching(p: MmuNode, ghost n: Node) returns (j: nat)
      requires Valid() && p.Is(n)
      ensures j == FindTouching(freeNodes, n, 0)
    {
      j := 0;
      while j < |free|
        && !(free[j].mtlbEnd == p.mtlbStart && free[j].stlbEnd == p.stlbStart)
        && !(free[j].mtlbStart == p.mtlbEnd && free[j].stlbStart == p.stlbEnd)
        invariant j <= |free| && FindTouching(freeNodes, n, 0) == FindTouching(freeNodes, n, j)
      {
        j := j + 1;
      }
    }

    /** The second search, for a free node that starts where free[j] ends; the two become one. */
    method JoinBehind(j: nat)
      requires Valid() && j < |free|
      modifies this`free, this`freeNodes, free
      ensures Valid()
      ensures freeNodes == SecondJoinBehind(old(freeNodes), j)
      ensures forall p :: p in free ==> p in old(free)
    {
      var p, k := free[j], 0;
      while k < |free| && !(free[k].mtlbStart == p.mtlbEnd && free[k].stlbStart == p.stlbEnd)
        invariant k <= |free| && FindBehind(freeNodes, freeNodes[j], 0) == FindBehind(freeNodes, freeNodes[j], k)
      {
        k := k + 1;
      }
      if k < |free| {
        var q := free[k];
        Resize(k, p.mtlbStart, p.stlbStart, q.mtlbEnd, q.stlbEnd, q.pages + p.pages);
        DeleteFree(j);
      }
    }

    /** The second search on the other side. */
    method JoinInFront(j: nat)
      requires Valid() && j < |free|
      modifies this`free, this`freeNodes, free
      ensures Valid()
      ensures freeNodes == SecondJoinInFront(old(freeNodes), j)
      ensures forall p :: p in free ==> p in old(free)
    {
      var p, k := free[j], 0;
      while k < |free| && !(free[k].mtlbEnd == p.mtlbStart && free[k].stlbEnd == p.stlbStart)
        invariant k <= |free| && FindInFront(freeNodes, freeNodes[j], 0) == FindInFront(freeNodes, freeNodes[j], k)
      {
        k := k + 1;
      }
      if k < |free| {
        var q := free[k];
        Resize(k, q.mtlbStart, q.stlbStart, p.mtlbEnd, p.stlbEnd, q.pages + p.pages);
        DeleteFree(j);
      }
    }

    /** MergeNode: p, on neither list, joins the free node at j that it touches, and then whatever that
        node touches on its other side. */
    method MergeNode(p: MmuNode, ghost n: Node, j: nat)
      requires Valid() && p.Is(n) && p !in free && j == FindTouching(freeNodes, n, 0) < |free|
      modifies this`free, this`freeNodes, free
      ensures Valid() && freeNodes == InsertFree(old(freeNodes), n)
    {
      JoinsTwice(freeNodes, n, j);
      hide InsertFree, SecondJoinBehind, SecondJoinInFront, FindTouching;
      var f := free[j];
      if f.mtlbEnd == p.mtlbStart && f.stlbEnd == p.stlbStart {
        Resize(j, f.mtlbStart, f.stlbStart, p.mtlbEnd, p.stlbEnd, f.pages + p.pages);
        JoinBehind(j);
      } else {
        Resize(j, p.mtlbStart, p.stlbStart, f.mtlbEnd, f.stlbEnd, f.pages + p.pages);
        JoinInFront(j);
      }
    }

    /** InsertNode into the free list: the mapped node at k goes back. */
    method InsertNode(k: nat)
      requires Valid() && k < |mapped|
      modifies this`free, this`mapped, this`freeNodes, this`mappedNodes, free
      ensures Valid()
      ensures freeNodes == InsertFree(old(freeNodes), old(mappedNodes)[k])
      ensures mappedNodes == RemoveAt(old(mappedNodes), k)
    {
      var p := mapped[k];
      ghost var n := mappedNodes[k];
      var j := Touching(p, n);
      DeleteMapped(k);
      if j == |free| {
        free, freeNodes := [p] + free, [n] + freeNodes;
      } else {
        MergeNode(p, n, j);
      }
    }

    /** The second half of MMUMemNodeMap, once the free node is found. */
    method MapAtNode(i: nat, key: Key, phys: seq<bv64>) returns (bus: nat)
      requires Valid() && i < |free| && |phys| <= freeNodes[i].pages
      requires Start(freeNodes[i]) + |phys| <= table.Length
      modifies this`free, this`mapped, this`freeNodes, this`mappedNodes, free, table
      ensures Valid() && Region(freeNodes, mappedNodes) == Split(old(Abs().r), i, |phys|, key, phys)
      ensures table[..] == Written(old(table[..]), Start(old(freeNodes)[i]), phys)
      ensures bus == BusAddress(mappedNodes[0]) % 0x1_0000_0000
    {
      SplitFreeNode(i, |phys|, key, phys);
      var p := mapped[0];
      WriteEntries(p.mtlbStart * MMU_STLB_4K_ENTRY_NUM + p.stlbStart, phys);
      bus := (p.mtlbStart * 0x40_0000 + p.stlbStart * 0x1000) % 0x1_0000_0000;
    }

    /** MMUMemNodeMap: the bus address, or None with nothing changed. */
    method MapBuffer(key: Key, phys: seq<bv64>) returns (bus: Option<nat>)
      requires Valid() && InTable(freeNodes, table.Length)
      modifies this`free, this`mapped, this`freeNodes, this`mappedNodes, free, table
      ensures Valid()
      ensures match Map(old(Abs()), key, phys)
              case None => bus == None && Abs() == old(Abs())
              case Some(s) => Abs() == s && s.r.mapped != [] && bus == Some(BusAddress(s.r.mapped[0]) % 0x1_0000_0000)
    {
      var i := FindFreeNode(|phys|);
      if i == |free| {
        return None;
      }
      var address := MapAtNode(i, key, phys);
      bus := Some(address);
    }

    /** MMUMemNodeUnmap: whether a buffer was mapped under the key. */
    method UnmapBuffer(key: Key) returns (ok: bool)
      requires Valid() && InTable(mappedNodes, table.Length)
      modifies this`free, this`mapped, this`freeNodes, this`mappedNodes, free, table
      ensures Valid()
      ensures match Unmap(old(Abs()), key)
              case None => !ok && Abs() == old(Abs())
              case Some(s) => ok && Abs() == s
    {
      var k := 0;
      while k < |mapped| && mapped[k].key != key
        invariant k <= |mapped| && FindKey(mappedNodes, key, 0) == FindKey(mappedNodes, key, k)
      {
        k := k + 1;
      }
      ok := k < |mapped|;
      if ok {
        var p := mapped[k];
        ClearEntries(p.mtlbStart * MMU_STLB_4K_ENTRY_NUM + p.stlbStart, p.pages);
        InsertNode(k);
      }
    }
  }

  /** The table fill of MMUPageTableInit: each first-level entry points at the next second-level table. */
  method FillMtlb(mtlb: array<nat>, stlbPhysical: nat)
    requires mtlb.Length == MMU_MTLB_ENTRY_NUM
    modifies mtlb
    ensures MtlbFilled(mtlb[..], stlbPhysical)
  {
    var address := stlbPhysical;
    for i := 0 to mtlb.Length
      invariant address == stlbPhysical + i * 4096
      invariant forall k :: 0 <= k < i ==> mtlb[k] == MtlbEntry(stlbPhysical + k * 4096)
    {
      mtlb[i] := address % 0x1_0000_0000 / 32 * 32 + 1;
      address := address + 4096;
    }
  }
}
