/** A VCMD device with one core: slots, live buffers, owners' budgets and the queue together. */
module VcmdDevice {
  import opened Wrappers
  import opened JmpWords
  import opened VcmdSpec
  import opened VcmdChain
  import opened VcmdQueue
  import opened VcmdMembership
  import opened VcmdEngine
  import opened CmdbufPool

  const PROCESS_MAX_SUM_OF_IMAGE_SIZE: nat := 4096 * 2160 * 4 * (4 * 8)

  /** The execution time owner o has outstanding in live buffers. */
  function SumTimes(nodes: seq<CmdBuf?>, o: nat): nat {
    if nodes == [] then 0
    else
      var b := nodes[|nodes| - 1];
      SumTimes(nodes[..|nodes| - 1], o) + if b != null && b.owner == o then b.time else 0
  }

  function Share(b: CmdBuf?, o: nat): nat {
    if b != null && b.owner == o then b.time else 0
  }

  lemma {:induction false} SumTimesUpdate(nodes: seq<CmdBuf?>, i: nat, b: CmdBuf?, o: nat)
    requires i < |nodes|
    ensures SumTimes(nodes[i := b], o) + Share(nodes[i], o) == SumTimes(nodes, o) + Share(b, o)
  {
    var k := |nodes| - 1;
    assert nodes[i := b][..k] == if i == k then nodes[..k] else nodes[..k][i := b];
    if i < k {
      SumTimesUpdate(nodes[..k], i, b, o);
    }
  }

  lemma OneMore(nodes: seq<CmdBuf?>, i: nat, b: CmdBuf)
    requires i < |nodes| && nodes[i] == null
    ensures forall o :: SumTimes(nodes[i := b], o) == SumTimes(nodes, o) + Share(b, o)
  {
    forall o
      ensures SumTimes(nodes[i := b], o) == SumTimes(nodes, o) + Share(b, o)
    {
      SumTimesUpdate(nodes, i, b, o);
    }
  }

  /** 32-bit subtraction of what was added before. */
  function Sub32(x: nat, t: nat): nat
    requires x < U32 && t < U32
  {
    (x + U32 - t) % U32
  }

  lemma SubtractsBack(sum: nat, t: nat)
    requires t <= sum && t < U32
    ensures Sub32(sum % U32, t) == (sum - t) % U32
  {
    var q := sum / U32;
    assert sum == q * U32 + sum % U32;
    if t <= sum % U32 {
      ModIs(sum - t, q, sum % U32 - t);
    } else {
      ModIs(sum - t, q - 1, sum % U32 + U32 - t);
    }
  }

  lemma ModIs(x: nat, q: int, r: nat)
    requires x == q * U32 + r && r < U32
    ensures x % U32 == r
  {
  }

  /** How the slots follow the queue: the slot of a buffer that left is free, the others are as before. */
  ghost predicate Follows(s: Slots, s': Slots) {
    && |s.nodes| == |s.used| == |s'.nodes| == |s'.used|
    && (forall b :: b in s'.list ==> b in s.list)
    && forall k :: 0 <= k < |s.nodes| ==> FollowsAt(s, s', k)
  }

  ghost predicate FollowsAt(s: Slots, s': Slots, k: nat)
    requires k < |s.nodes| == |s.used| == |s'.nodes| == |s'.used|
  {
    var gone := s.nodes[k] in s.list && s.nodes[k] !in s'.list;
    s'.nodes[k] == (if gone then null else s.nodes[k]) && s'.used[k] == (s.used[k] && !gone)
  }

  datatype Slots = Slots(list: seq<CmdBuf>, nodes: seq<CmdBuf?>, used: seq<bool>)

  lemma FollowsTrans(a: Slots, b: Slots, c: Slots)
    requires Follows(a, b) && Follows(b, c)
    ensures Follows(a, c)
  {
    forall k | 0 <= k < |a.nodes|
      ensures FollowsAt(a, c, k)
    {
      assert FollowsAt(a, b, k) && FollowsAt(b, c, k);
    }
  }

  lemma DropFollows(s: Slots, i: nat)
    requires i < |s.list| && |s.nodes| == |s.used|
    requires forall j :: 0 <= j < |s.list| ==> s.list[j].id < |s.nodes| && s.nodes[s.list[j].id] == s.list[j]
    requires forall j, k :: 0 <= j < k < |s.list| ==> s.list[j] != s.list[k]
    requires forall k :: 0 <= k < |s.nodes| && s.nodes[k] != null ==> s.nodes[k].id == k
    ensures var id := s.list[i].id;
            Follows(s, Slots(s.list[..i] + s.list[i + 1..], s.nodes[id := null], s.used[id := false]))
  {
    var s' := Slots(s.list[..i] + s.list[i + 1..], s.nodes[s.list[i].id := null], s.used[s.list[i].id := false]);
    forall k | 0 <= k < |s.nodes|
      ensures FollowsAt(s, s', k)
    {
      if s.nodes[k] in s.list && s.nodes[k] != s.list[i] {
        var j :| 0 <= j < |s.list| && s.list[j] == s.nodes[k];
        assert s'.list[if j < i then j else j - 1] == s.nodes[k];
      }
    }
  }

  class Device {
    const core: VcmdCore
    const pool: Pool
    var exeTime: map<nat, nat>

    /** Every queued buffer is the live buffer of its slot and fits it. */
    ghost predicate Valid()
      reads this, core, core.list, pool, pool.used, pool.nodes
    {
      && core.Valid() && pool.Valid() && AllFit(core.cfg, core.bufs)
      && (forall i :: 0 <= i < |core.list| ==>
            core.list[i].id < TOTAL_DISCRETE_CMDBUF_NUM && pool.nodes[core.list[i].id] == core.list[i])
      && (forall i :: 0 <= i < TOTAL_DISCRETE_CMDBUF_NUM && pool.nodes[i] != null ==> pool.nodes[i].time < U32)
      && forall o :: o in exeTime ==> exeTime[o] < U32
    }

    ghost function AbsSlots(): Slots
      reads this, core, pool, pool.used, pool.nodes
    {
      Slots(core.list, pool.nodes[..], pool.used[..])
    }

    /** Each owner is charged, in 32 bits, exactly the time of its live buffers. */
    ghost predicate Conserved()
      reads this, pool, pool.nodes
    {
      && (forall o :: o in exeTime ==> exeTime[o] == SumTimes(pool.nodes[..], o) % U32)
      && forall i :: 0 <= i < pool.nodes.Length && pool.nodes[i] != null ==> pool.nodes[i].owner in exeTime
    }

    constructor (cfg: Config, base: nat, idDump: nat, regDump: nat)
      ensures Valid() && Conserved() && fresh(core) && fresh(pool) && fresh(pool.used) && fresh(pool.nodes)
      ensures core.cfg == cfg && core.list == [] && exeTime == map[]
    {
      core := new VcmdCore(cfg, idDump, regDump);
      pool := new Pool(base);
      exeTime := map[];
    }

    /** Slots keep queued buffers apart: the ids and addresses the engine relies on are distinct. */
    lemma SlotsKeepApart()
      requires Valid()
      ensures DistinctIds(core.Abs().list)
    {
      hide CmdBuf.Jumps;
      forall i, j | 0 <= i < j < |core.bufs|
        ensures Differ(core.bufs[i], core.bufs[j])
      {
        assert core.list[i].Plain(core.bufs[i]) && core.list[j].Plain(core.bufs[j]);
      }
      forall i | 0 <= i < |core.bufs|
        ensures 0 < core.bufs[i].id < TOTAL_DISCRETE_CMDBUF_NUM
      {
        assert core.list[i].Plain(core.bufs[i]);
      }
    }

    /** In every reachable state the queue lies in its slots: each buffer in its own. */
    lemma QueueInSlots()
      requires Valid()
      ensures InSlots(pool.base, core.Abs().list)
    {
      hide CmdBuf.Jumps;
      forall i | 0 <= i < |core.bufs|
        ensures core.bufs[i].addr == pool.base + core.bufs[i].id * CMDBUF_MAX_SIZE
        ensures core.bufs[i].size <= CMDBUF_MAX_SIZE
      {
        assert core.list[i].Plain(core.bufs[i]);
      }
    }

    /** So the search by address, the search by id and the table of live buffers all agree. */
    lemma LookupsAgree(i: nat, addr: nat)
      requires Valid() && i < |core.Abs().list| && Executing(core.Abs().list[i], addr)
      ensures var list := core.Abs().list;
              && FindByAddr(list, addr) == Some(i) && FindById(list, list[i].id) == Some(i)
              && list[i].id < TOTAL_DISCRETE_CMDBUF_NUM && pool.nodes[list[i].id] == core.list[i]
    {
      QueueInSlots();
      SlotsKeepApart();
      AddressAndIdAgree(pool.base, core.Abs().list, i, addr);
      assert core.list[i].Plain(core.bufs[i]);
    }

    /** Looking an id up in the table of live buffers, as the interrupt handler does, and in the queue are
        the same iff the table does not name a buffer that is reserved but not queued. */
    lemma TableLookupIsExact(id: nat)
      requires Valid() && 0 < id < TOTAL_DISCRETE_CMDBUF_NUM
      ensures (match FindById(core.Abs().list, id)
               case None => pool.nodes[id] == null
               case Some(r) => pool.nodes[id] == core.list[r])
              <==> pool.nodes[id] == null || pool.nodes[id] in core.list
    {
      hide CmdBuf.Jumps;
      assert forall i :: 0 <= i < |core.list| ==> core.list[i].Plain(core.bufs[i]);
    }

    /** A reserved buffer that has not been submitted is what a submission asks for. */
    lemma ReservedIsFresh(id: nat, vb: Buf)
      requires Valid() && id < TOTAL_DISCRETE_CMDBUF_NUM
      requires pool.nodes[id] != null && pool.nodes[id] !in core.list && pool.nodes[id].Plain(vb)
      requires !vb.linked && !vb.done && !vb.needRemove && !vb.jmp.rdy
      ensures Fresh(core.Abs().list, vb)
    {
      hide CmdBuf.Jumps;
      forall i | 0 <= i < |core.bufs|
        ensures core.bufs[i].id != vb.id && core.bufs[i].addr != vb.addr
      {
        assert core.list[i].Plain(core.bufs[i]) && core.list[i] in core.list;
      }
    }

    /** hantrovcmd_open: a client with nothing outstanding. */
    method Open(owner: nat)
      requires Valid() && Conserved() && owner !in exeTime
      modifies this`exeTime
      ensures Valid() && Conserved() && exeTime == old(exeTime)[owner := 0]
    {
      NothingOwned(pool.nodes[..], owner);
      exeTime := exeTime[owner := 0];
    }

    /** The requests reserve_cmdbuf turns down before it charges anything. */
    predicate TurnsDown(owner: nat, size: nat)
      reads this
    {
      size > CMDBUF_MAX_SIZE || owner !in exeTime
    }

    /** reserve_cmdbuf. signal stands for a signal that ends a wait; without one the call is considered
        only where it does not have to wait. */
    method Reserve(owner: nat, size: nat, time: nat, prio: Priority, words: Words, signal: bool)
      returns (ok: bool, id: nat)
      requires Valid() && time < U32
      requires !signal && !TurnsDown(owner, size) ==>
                 (exeTime[owner] + time) % U32 <= PROCESS_MAX_SUM_OF_IMAGE_SIZE && pool.residual > 0
      modifies this`exeTime, pool`pos, pool`residual, pool.used, pool.nodes
      ensures Valid()
      ensures exeTime == if old(TurnsDown(owner, size)) then old(exeTime)
                         else old(exeTime)[owner := (old(exeTime)[owner] + time) % U32]
      ensures ok ==> NextFree(old(pool.used[..]), old(pool.pos), id) && id != 0 && old(pool.nodes[id]) == null
      ensures ok ==> var b := pool.nodes[id];
                     && b != null && fresh(b) && pool.nodes[..] == old(pool.nodes[..])[id := b]
                     && b.owner == owner && b.time == time && b.prio == prio && b.words == words
                     && !b.linked && !b.done && !b.needRemove
      ensures ok <==> size <= 8192 && owner in old(exeTime)
                      && (old(exeTime)[owner] + time) % U32 <= 1132462080 && old(pool.residual) > 0
      ensures ok ==> pool.used[..] == old(pool.used[..])[id := true]
      ensures !ok ==> id == 0 && pool.nodes[..] == old(pool.nodes[..]) && pool.used[..] == old(pool.used[..])
      ensures old(Conserved()) ==> (Conserved() <==> ok || old(TurnsDown(owner, size)) || time == 0)
    {
      hide CmdBuf.Plain, CmdBuf.Jumps;
      ok, id := false, 0;
      if size > CMDBUF_MAX_SIZE || owner !in exeTime {
        return;
      }
      exeTime := exeTime[owner := (exeTime[owner] + time) % U32];
      ghost var sum := SumTimes(pool.nodes[..], owner);
      if exeTime[owner] <= PROCESS_MAX_SUM_OF_IMAGE_SIZE {
        ok, id := CreateNode(owner, time, prio, words);
      }
      WrapAdd(sum, time);
      ChargeShows(sum, time);
    }

    /** create_cmdbuf_node and the entry in the table of live buffers. */
    method CreateNode(owner: nat, time: nat, prio: Priority, words: Words) returns (ok: bool, id: nat)
      requires Valid() && time < U32
      modifies pool`pos, pool`residual, pool.used, pool.nodes
      ensures Valid() && ok == (old(pool.residual) > 0)
      ensures ok ==> NextFree(old(pool.used[..]), old(pool.pos), id) && id != 0 && old(pool.nodes[id]) == null
      ensures ok ==> var b := pool.nodes[id];
                     && b != null && fresh(b) && pool.nodes[..] == old(pool.nodes[..])[id := b]
                     && b.owner == owner && b.time == time && b.prio == prio && b.words == words
                     && !b.linked && !b.done && !b.needRemove
                     && pool.used[..] == old(pool.used[..])[id := true]
                     && forall o :: SumTimes(pool.nodes[..], o) == SumTimes(old(pool.nodes[..]), o) + Share(b, o)
      ensures !ok ==> id == 0 && pool.nodes[..] == old(pool.nodes[..]) && pool.used[..] == old(pool.used[..])
    {
      hide CmdBuf.Plain, CmdBuf.Jumps;
      ok, id := pool.Allocate();
      if !ok {
        return false, 0;
      }
      ghost var before := pool.nodes[..];
      var b := new CmdBuf(id, pool.base + id * CMDBUF_MAX_SIZE, owner, time, prio, words);
      pool.nodes[id] := b;
      assert pool.nodes[..] == before[id := b];
      OneMore(before, id, b);
    }

    /** link_and_run_cmdbuf by the owner of a reserved buffer, whose last words decode to vb.jmp. */
    method LinkAndRun(owner: nat, id: nat, size: bv32, probe: Probe, ghost vb: Buf) returns (ok: bool)
      requires Valid() && Conserved() && id < TOTAL_DISCRETE_CMDBUF_NUM && size <= 0xFFFF
      requires var b := pool.nodes[id];
               b != null && b.owner == owner ==>
                 && b !in core.list && b.Plain(vb)
                 && SizeFits(core.cfg, vb.size) && vb.size == size as nat && vb.units == LenUnits(size)
                 && vb.jmp == Decode(b.words)
                 && (Preempts(core.cfg, core.Abs(), vb, probe) ==>
                       !BeforeInsert(core.cfg, core.Abs(), vb, probe).working)
      modifies core`list, core`rdy, core`dur, core`regs, core`working, core`completed, core`abortedId, core`bufs
      modifies core.list, if pool.nodes[id] == null then {} else {pool.nodes[id], pool.nodes[id].dumps}
      ensures Valid() && Conserved()
      ensures ok == old(pool.nodes[id] != null && pool.nodes[id].owner == owner
                        && Accepts(core.cfg, core.Abs(), vb, probe))
      ensures core.Abs() == if ok then Submit(core.cfg, old(core.Abs()), vb, probe) else old(core.Abs())
    {
      hide VcmdSpec.LinkAndRun, Accepts, Preempts, BeforeInsert, CmdBuf.Plain, CmdBuf.Jumps;
      ok := false;
      var b := pool.nodes[id];
      if b != null && b.owner == owner {
        assert forall x :: x in core.list ==> x.id < TOTAL_DISCRETE_CMDBUF_NUM && pool.nodes[x.id] == x;
        SubmitFits(core.cfg, core.Abs(), vb, probe);
        ok := core.LinkAndRunCmdbuf(b, size, probe, vb);
        forall i | 0 <= i < |core.list|
          ensures core.list[i].id < TOTAL_DISCRETE_CMDBUF_NUM && pool.nodes[core.list[i].id] == core.list[i]
        {
          assert core.list[i] in core.list;
        }
      }
    }

    /** vcmd_delink_rm_cmdbuf: the buffer leaves queue and table and its slot is free; its time stays
        charged to its owner. */
    method DelinkRemove(i: nat)
      requires Valid() && i < |core.list|
      modifies core`list, core`bufs, core.list, pool`residual, pool.used, pool.nodes
      ensures Valid() && Follows(old(AbsSlots()), AbsSlots())
      ensures core.Abs() == VcmdSpec.DelinkRemove(core.cfg, old(core.Abs()), i)
    {
      hide VcmdSpec.DelinkRemove, CmdBuf.Plain, CmdBuf.Jumps, FollowsAt;
      var b := core.list[i];
      DropFollows(AbsSlots(), i);
      DelinkFits(core.cfg, core.Abs(), i);
      core.DelinkRemove(i);
      Vacate(b);
    }

    /** The slot of a buffer that is not queued any more. */
    method Vacate(b: CmdBuf)
      requires Valid() && b !in core.list && b.id < TOTAL_DISCRETE_CMDBUF_NUM && pool.nodes[b.id] == b
      modifies pool`residual, pool.used, pool.nodes
      ensures Valid() && pool.nodes[..] == old(pool.nodes[..])[b.id := null]
      ensures pool.used[..] == old(pool.used[..])[b.id := false]
    {
      hide CmdBuf.Plain, CmdBuf.Jumps;
      ghost var before := pool.nodes[..];
      pool.nodes[b.id] := null;
      assert pool.nodes[..] == before[b.id := null];
      pool.Free(b.id);
    }

    /** A live buffer that is not queued any more gives its slot and its time back. */
    method Retire(b: CmdBuf)
      requires Valid() && Conserved() && b !in core.list
      requires b.id < TOTAL_DISCRETE_CMDBUF_NUM && pool.nodes[b.id] == b
      modifies pool`residual, pool.used, pool.nodes, this`exeTime
      ensures Valid() && Conserved() && exeTime.Keys == old(exeTime.Keys)
      ensures pool.nodes[..] == old(pool.nodes[..])[b.id := null]
      ensures pool.used[..] == old(pool.used[..])[b.id := false]
    {
      hide CmdBuf.Plain, CmdBuf.Jumps;
      ghost var before := pool.nodes[..];
      Vacate(b);
      forall o | o in exeTime
        ensures SumTimes(pool.nodes[..], o) == SumTimes(before, o) - Share(b, o)
      {
        SumTimesUpdate(before, b.id, null, o);
      }
      SubtractsBack(SumTimes(before, b.owner), b.time);
      exeTime := exeTime[b.owner := Sub32(exeTime[b.owner], b.time)];
    }

    /** release_cmdbuf_notlinked for a buffer that was reserved but never queued: the slot comes back
        once, but the time is subtracted twice. */
    method ReleaseNotLinked(owner: nat, id: nat) returns (ok: bool)
      requires Valid() && Conserved() && id < TOTAL_DISCRETE_CMDBUF_NUM
      requires pool.nodes[id] != null ==> pool.nodes[id] !in core.list
      modifies pool`residual, pool.used, pool.nodes, this`exeTime
      ensures Valid() && ok == old(pool.nodes[id] != null && pool.nodes[id].owner == owner)
      ensures !ok ==> AbsSlots() == old(AbsSlots()) && exeTime == old(exeTime)
      ensures ok ==> pool.nodes[..] == old(pool.nodes[..])[id := null]
      ensures ok ==> pool.used[..] == old(pool.used[..])[id := false]
      ensures ok ==> (Conserved() <==> old(pool.nodes[id]).time == 0)
    {
      var b := pool.nodes[id];
      ok := b != null && b.owner == owner;
      if ok {
        Retire(b);
        SubtractShows(exeTime[owner], b.time);
        exeTime := exeTime[owner := Sub32(exeTime[owner], b.time)];
      }
    }

    /** Takes the queued buffer at i, not the tail, out of the queue and gives its slot and time back. */
    method Drop(i: nat)
      requires Valid() && Conserved() && i + 1 < |core.list|
      modifies core`list, core`bufs, pool`residual, pool.used, pool.nodes, this`exeTime
      ensures Valid() && Conserved()
      ensures core.list == old(core.list)[..i] + old(core.list)[i + 1..]
      ensures core.bufs == old(core.bufs)[..i] + old(core.bufs)[i + 1..]
      ensures Follows(old(AbsSlots()), AbsSlots())
    {
      hide CmdBuf.Plain, CmdBuf.Jumps, FollowsAt;
      var b := core.list[i];
      DropFollows(AbsSlots(), i);
      core.Remove(i);
      Retire(b);
    }

    method SweepOne(i: nat)
      requires Valid() && Conserved() && i < |core.list|
      modifies core`list, core`bufs, pool`residual, pool.used, pool.nodes, this`exeTime
      ensures Valid() && Conserved() && i <= |core.list| && Follows(old(AbsSlots()), AbsSlots())
      ensures Sweep(core.bufs, i) == Sweep(old(core.bufs), i + 1)
    {
      if core.list[i].needRemove && i + 1 < |core.list| {
        Drop(i);
      }
    }

    /** The release loop: backwards to the head, dropping what has been released, but never the tail. */
    method SweepFrom(n: nat)
      requires Valid() && Conserved() && n <= |core.list|
      modifies core`list, core`bufs, pool`residual, pool.used, pool.nodes, this`exeTime
      ensures Valid() && Conserved() && Follows(old(AbsSlots()), AbsSlots())
      ensures core.bufs == Sweep(old(core.bufs), n)
    {
      var i := n;
      while i > 0
        invariant Valid() && Conserved() && 0 <= i <= |core.list|
        invariant Follows(old(AbsSlots()), AbsSlots())
        invariant Sweep(core.bufs, i) == Sweep(old(core.bufs), n)
      {
        ghost var s := AbsSlots();
        i := i - 1;
        SweepOne(i);
        FollowsTrans(old(AbsSlots()), s, AbsSlots());
      }
    }

    method ReleaseQueued(r: nat)
      requires Valid() && Conserved() && r < |core.list|
      modifies core`list, core`bufs, core.list, pool`residual, pool.used, pool.nodes, this`exeTime
      ensures Valid() && Conserved() && Follows(old(AbsSlots()), AbsSlots())
      ensures core.Abs() == VcmdSpec.Release(old(core.Abs()), r)
    {
      core.MarkNeedRemove(r);
      SweepFrom(r + 1);
    }

    /** release_cmdbuf: the queue loses exactly what VcmdSpec.Release takes out of it, and every buffer
        that leaves the queue gives its slot back, once, and its time to its owner. A buffer that was
        never queued is only marked. */
    method Release(owner: nat, id: nat) returns (ok: bool, queued: bool)
      requires Valid() && Conserved() && id < TOTAL_DISCRETE_CMDBUF_NUM
      modifies core`list, core`bufs, core.list, pool`residual, pool.used, pool.nodes, this`exeTime
      modifies if pool.nodes[id] == null then {} else {pool.nodes[id]}
      ensures Valid() && Conserved() && Follows(old(AbsSlots()), AbsSlots())
      ensures ok == old(pool.nodes[id] != null && pool.nodes[id].owner == owner)
      ensures queued == (ok && old(pool.nodes[id] in core.list))
      ensures queued ==> exists r :: 0 <= r < |old(core.list)| && old(core.list[r].id) == id
                              && core.Abs() == VcmdSpec.Release(old(core.Abs()), r)
      ensures !queued ==> core.Abs() == old(core.Abs()) && AbsSlots() == old(AbsSlots()) && exeTime == old(exeTime)
    {
      queued := false;
      var b := pool.nodes[id];
      ok := b != null && b.owner == owner;
      if ok {
        var r := core.IndexOfId(id);
        queued := r < |core.list|;
        if queued {
          ReleaseQueued(r);
        } else {
          assert b !in core.list;
          b.needRemove := true;
        }
      }
    }
  }

  lemma DelinkFits(cfg: Config, c: Core, i: nat)
    requires i < |c.list| && AllFit(cfg, c.list)
    ensures AllFit(cfg, VcmdSpec.DelinkRemove(cfg, c, i).list)
  {
  }

  lemma {:induction false} NothingOwned(nodes: seq<CmdBuf?>, o: nat)
    requires forall i :: 0 <= i < |nodes| && nodes[i] != null ==> nodes[i].owner != o
    ensures SumTimes(nodes, o) == 0
  {
    if nodes != [] {
      NothingOwned(nodes[..|nodes| - 1], o);
    }
  }

  /** So does one that is taken back twice. */
  lemma SubtractShows(x: nat, t: nat)
    requires x < U32 && t < U32
    ensures Sub32(x, t) == x <==> t == 0
  {
  }

  /** A charge that no buffer accounts for shows, unless it is zero. */
  lemma ChargeShows(sum: nat, t: nat)
    requires t < U32
    ensures (sum % U32 + t) % U32 == sum % U32 <==> t == 0
  {
  }
}
