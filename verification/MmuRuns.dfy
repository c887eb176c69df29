/** Any sequence of map and unmap calls on one region. */
module MmuRuns {
  import opened Wrappers
  import opened MmuSpec
  import opened MmuRegions
  import opened MmuMapping

  datatype Op = OpMap(key: Key, phys: seq<bv64>) | OpUnmap(key: Key)

  /** A call that fails leaves everything as it was. */
  function Apply(s: State, op: Op): State {
    var r := match op
             case OpMap(key, phys) => Map(s, key, phys)
             case OpUnmap(key) => Unmap(s, key);
    if r.Some? then r.value else s
  }

  predicate Sized(ops: seq<Op>) {
    forall op :: op in ops && op.OpMap? ==> op.phys != []
  }

  function RunOps(s: State, ops: seq<Op>): State
    decreases |ops|
  {
    if ops == [] then s else RunOps(Apply(s, ops[0]), ops[1..])
  }

  /** A region as CreateNode sets it up, over a zeroed table: one free node from lo to hi. */
  predicate Created(s: State, lo: nat, hi: nat) {
    && |s.r.free| == 1 && s.r.mapped == []
    && Normal(s.r.free[0]) && Start(s.r.free[0]) == lo && End(s.r.free[0]) == hi
    && hi <= |s.table| && forall p :: lo <= p < hi ==> s.table[p] == 0
  }

  lemma CreatedKeeps(s: State, lo: nat, hi: nat)
    requires Created(s, lo, hi)
    ensures StateInv(s, lo, hi)
  {
    var n := s.r.free[0];
    assert s.r.free == [n];
    assert forall p :: Hits([n], p) == Hit(n, p);
    NeverMeetsItself(n);
  }

  lemma ApplyKeeps(s: State, lo: nat, hi: nat, op: Op)
    requires StateInv(s, lo, hi) && (op.OpMap? ==> op.phys != [])
    ensures StateInv(Apply(s, op), lo, hi)
  {
    match op
    case OpMap(key, phys) =>
      if Map(s, key, phys).Some? {
        MapKeeps(s, lo, hi, key, phys);
      }
    case OpUnmap(key) =>
      if Unmap(s, key).Some? {
        UnmapKeeps(s, lo, hi, key);
      }
  }

  lemma ApplyKeepsBuffer(s: State, lo: nat, hi: nat, op: Op, n: Node)
    requires StateInv(s, lo, hi) && (op.OpMap? ==> op.phys != [])
    requires n in s.r.mapped && op != OpUnmap(n.key)
    ensures n in Apply(s, op).r.mapped
  {
    match op
    case OpMap(key, phys) =>
      if Map(s, key, phys).Some? {
        MapKeepsOthers(s, lo, hi, key, phys, n);
      }
    case OpUnmap(key) =>
      if Unmap(s, key).Some? {
        var k := FindKey(s.r.mapped, key, 0);
        var m :| 0 <= m < |s.r.mapped| && s.r.mapped[m] == n;
        assert RemoveAt(s.r.mapped, k)[if m < k then m else m - 1] == n;
      }
  }

  lemma {:induction false} RunKeepsBuffer(s: State, lo: nat, hi: nat, ops: seq<Op>, n: Node)
    requires StateInv(s, lo, hi) && Sized(ops)
    requires n in s.r.mapped && OpUnmap(n.key) !in ops
    ensures n in RunOps(s, ops).r.mapped
    decreases |ops|
  {
    if ops != [] {
      ApplyKeepsBuffer(s, lo, hi, ops[0], n);
      ApplyKeeps(s, lo, hi, ops[0]);
      RunKeepsBuffer(Apply(s, ops[0]), lo, hi, ops[1..], n);
    }
  }

  lemma {:induction false} TableLength(s: State, ops: seq<Op>)
    ensures |RunOps(s, ops).table| == |s.table|
    decreases |ops|
  {
    if ops != [] {
      TableLength(Apply(s, ops[0]), ops[1..]);
    }
  }

  // ---------------------------------------------------------------- page counts

  /** The page count MMUMemNodeMap computes from a 64-bit size, kept in 32 bits. */
  function PageCount(size: nat): nat {
    ((size + 0xFFFF_FFFF_FFFF_FFFF) % 0x1_0000_0000_0000_0000 / 4096 + 1) % 0x1_0000_0000
  }

  /** The pages cover the buffer, with less than a page to spare, iff the size is neither zero nor beyond
      the 32-bit page count. A size of zero asks for zero pages, which the allocator would grant. */
  lemma PageCountCovers(size: nat)
    requires size < 0x1_0000_0000_0000_0000
    ensures 0 < PageCount(size) && (PageCount(size) - 1) * 4096 < size <= PageCount(size) * 4096
            <==> 0 < size <= 0xFFF_FFFF_F000
  {
    if size > 0 {
      assert (size + 0xFFFF_FFFF_FFFF_FFFF) % 0x1_0000_0000_0000_0000 == size - 1;
    }
  }
}
