/** The pool of 256 command-buffer slots: a used flag, a table of live buffers and a cyclic scan. */
module CmdbufPool {
  import opened Wrappers
  import opened Cyclic
  import opened JmpWords
  import opened VcmdSpec
  import opened VcmdChain
  import opened VcmdEngine

  function FreeCount(used: seq<bool>): nat {
    if used == [] then 0 else FreeCount(used[..|used| - 1]) + if used[|used| - 1] then 0 else 1
  }

  lemma {:induction false} FreeCountUpdate(used: seq<bool>, i: nat, v: bool)
    requires i < |used| && used[i] != v
    ensures FreeCount(used[i := v]) == FreeCount(used) + if v then -1 else 1
  {
    var k := |used| - 1;
    assert used[i := v][..k] == if i == k then used[..k] else used[..k][i := v];
    if i < k {
      FreeCountUpdate(used[..k], i, v);
    }
  }

  lemma {:induction false} SomeFree(used: seq<bool>) returns (f: nat)
    requires FreeCount(used) > 0
    ensures f < |used| && !used[f]
  {
    f := |used| - 1;
    if used[f] {
      f := SomeFree(used[..f]);
    }
  }

  /** id is the first free slot at or after from, in cyclic order. */
  predicate NextFree(used: seq<bool>, from: nat, id: nat)
    requires |used| == TOTAL_DISCRETE_CMDBUF_NUM && from < TOTAL_DISCRETE_CMDBUF_NUM
  {
    && id < TOTAL_DISCRETE_CMDBUF_NUM && !used[id]
    && forall k :: 0 <= k < |used| && Ahead(from, k, |used|) < Ahead(from, id, |used|) ==> used[k]
  }

  class Pool {
    const base: nat
    const used: array<bool>
    const nodes: array<CmdBuf?>
    var pos: nat
    var residual: nat

    /** The counter is exact; slot 0 is never handed out; a live buffer holds its own slot. */
    ghost predicate Valid()
      reads this, used, nodes
    {
      && used.Length == nodes.Length == TOTAL_DISCRETE_CMDBUF_NUM
      && pos < TOTAL_DISCRETE_CMDBUF_NUM
      && residual == FreeCount(used[..])
      && used[0] && nodes[0] == null
      && forall i :: 0 <= i < TOTAL_DISCRETE_CMDBUF_NUM && nodes[i] != null ==>
           used[i] && nodes[i].id == i && nodes[i].addr == base + i * CMDBUF_MAX_SIZE
    }

    constructor (base: nat)
      ensures Valid() && fresh(used) && fresh(nodes) && this.base == base
      ensures residual == TOTAL_DISCRETE_CMDBUF_NUM - 1
      ensures forall i :: 0 <= i < TOTAL_DISCRETE_CMDBUF_NUM ==> nodes[i] == null
    {
      this.base := base;
      var u := new bool[TOTAL_DISCRETE_CMDBUF_NUM](i => i == 0);
      used := u;
      nodes := new CmdBuf?[TOTAL_DISCRETE_CMDBUF_NUM](_ => null);
      pos, residual := 1, TOTAL_DISCRETE_CMDBUF_NUM - 1;
      new;
      AllFree(used[..]);
    }

    /** allocate_cmdbuf: fails iff nothing is free, and otherwise the scan ends at the next free slot. */
    method Allocate() returns (ok: bool, id: nat)
      requires Valid()
      modifies this`pos, this`residual, used
      ensures Valid()
      ensures ok == (old(residual) > 0)
      ensures !ok ==> used[..] == old(used[..]) && pos == old(pos)
      ensures ok ==> NextFree(old(used[..]), old(pos), id) && id != 0 && nodes[id] == null
      ensures ok ==> used[..] == old(used[..])[id := true] && residual == old(residual) - 1
      ensures ok ==> pos == Following(id, TOTAL_DISCRETE_CMDBUF_NUM)
    {
      hide FreeCount;
      id := 0;
      if residual == 0 {
        return false, 0;
      }
      ghost var n := TOTAL_DISCRETE_CMDBUF_NUM;
      ghost var f := SomeFree(used[..]);
      while used[pos] || nodes[pos] != null
        invariant pos < TOTAL_DISCRETE_CMDBUF_NUM && used[..] == old(used[..]) && residual == old(residual)
        invariant Ahead(old(pos), pos, n) <= Ahead(old(pos), f, n)
        invariant forall k :: 0 <= k < n && Ahead(old(pos), k, n) < Ahead(old(pos), pos, n) ==> used[k]
        decreases Ahead(old(pos), f, n) - Ahead(old(pos), pos, n)
      {
        assert pos != f;
        pos := Following(pos, TOTAL_DISCRETE_CMDBUF_NUM);
      }
      id := pos;
      FreeCountUpdate(used[..], id, true);
      used[id] := true;
      assert used[..] == old(used[..])[id := true];
      residual := residual - 1;
      pos := Following(pos, TOTAL_DISCRETE_CMDBUF_NUM);
      ok := true;
    }

    /** free_cmdbuf_mem, for a slot whose buffer has been taken out of the table. */
    method Free(id: nat)
      requires Valid() && 0 < id < TOTAL_DISCRETE_CMDBUF_NUM && used[id] && nodes[id] == null
      modifies this`residual, used
      ensures Valid() && used[..] == old(used[..])[id := false] && residual == old(residual) + 1
    {
      FreeCountUpdate(used[..], id, false);
      used[id] := false;
      assert used[..] == old(used[..])[id := false];
      residual := residual + 1;
    }
  }

  lemma AllFree(used: seq<bool>)
    requires |used| == TOTAL_DISCRETE_CMDBUF_NUM && forall i :: 0 <= i < |used| ==> (used[i] <==> i == 0)
    ensures FreeCount(used) == TOTAL_DISCRETE_CMDBUF_NUM - 1
  {
    CountFrom(used, |used|);
    assert used[..|used|] == used;
  }

  lemma {:induction false} CountFrom(used: seq<bool>, n: nat)
    requires 0 < n <= |used| && forall i :: 0 <= i < |used| ==> (used[i] <==> i == 0)
    ensures FreeCount(used[..n]) == n - 1
    decreases n
  {
    assert used[..n][..n - 1] == used[..n - 1];
    if n > 1 {
      CountFrom(used, n - 1);
    }
  }

  /** A queue whose buffers lie in their own slots. */
  predicate InSlots(base: nat, list: seq<Buf>) {
    forall i :: 0 <= i < |list| ==>
      list[i].addr == base + list[i].id * CMDBUF_MAX_SIZE && list[i].size <= CMDBUF_MAX_SIZE
  }

  /** Slots do not overlap, so looking a buffer up by an address inside it and by its id agree. */
  lemma AddressAndIdAgree(base: nat, list: seq<Buf>, i: nat, addr: nat)
    requires InSlots(base, list) && DistinctIds(list) && i < |list| && Executing(list[i], addr)
    ensures FindByAddr(list, addr) == Some(i) && FindById(list, list[i].id) == Some(i)
  {
    forall j | 0 <= j < |list| && j != i
      ensures !Executing(list[j], addr) && list[j].id != list[i].id
    {
      if j < i {
        assert Differ(list[j], list[i]);
      } else {
        assert Differ(list[i], list[j]);
      }
      SlotsApart(base, list[i].id, list[j].id);
    }
    FirstExecuting(list, addr, i);
    FirstWithId(list, list[i].id, i);
  }

  lemma SlotsApart(base: nat, i: nat, j: nat)
    requires i != j
    ensures var a, b := base + i * CMDBUF_MAX_SIZE, base + j * CMDBUF_MAX_SIZE;
            a + CMDBUF_MAX_SIZE <= b || b + CMDBUF_MAX_SIZE <= a
  {
  }
}
