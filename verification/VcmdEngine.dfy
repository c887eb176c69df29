/** The VCMD core in place: command buffers are objects whose flags and JMP words the driver updates
    while it walks the queue. Every method computes the function of the same purpose in VcmdSpec. */
module VcmdEngine {
  import opened Wrappers
  import opened JmpWords
  import opened VcmdSpec
  import opened VcmdChain
  import opened VcmdQueue
  import opened VcmdSafety
  import opened VcmdPower

  /** The two addresses link_and_run_cmdbuf fills into a buffer on newer hardware: where the hardware
      writes the id it is executing, and where it dumps its registers. */
  class Dumps {
    var idDump: nat
    var regDump: nat

    constructor ()
    {
      idDump, regDump := 0, 0;
    }
  }

  class CmdBuf {
    const id: nat
    const addr: nat
    var size: bv32
    const time: nat
    const prio: Priority
    const owner: nat
    ghost var stamp: nat
    var linked: bool
    var done: bool
    var needRemove: bool
    var status: Status
    var noInt: bool
    var words: Words
    const dumps: Dumps

    constructor (id: nat, addr: nat, owner: nat, time: nat, prio: Priority, words: Words)
      ensures this.id == id && this.addr == addr && this.owner == owner && this.time == time && this.prio == prio
      ensures size == 8192 && !linked && !done && !needRemove && status == StatusOk && this.words == words
      ensures fresh(dumps)
    {
      this.id, this.addr, this.owner, this.time, this.prio := id, addr, owner, time, prio;
      size := 8192;
      linked, done, needRemove, noInt := false, false, false, false;
      status := StatusOk;
      this.words := words;
      dumps := new Dumps();
    }

    /** b describes everything about this buffer but its size and its JMP words. */
    ghost predicate Plain(b: Buf)
      reads this
    {
      && b.id == id && b.addr == addr && b.time == time && b.prio == prio && b.owner == owner && b.stamp == stamp
      && b.linked == linked && b.done == done && b.needRemove == needRemove
      && b.status == status && b.noInt == noInt
    }

    /** b describes the size and, decoded, the JMP words of this buffer. */
    ghost predicate Jumps(b: Buf)
      reads this`size, this`words
    {
      size <= 0xFFFF && b.size == size as nat && b.units == LenUnits(size) && b.jmp == Decode(words)
    }

    /** What link_and_run_cmdbuf reads off the end of the buffer; false for anything but a JMP. */
    method Prepare(size: bv32, ghost b: Buf) returns (ok: bool)
      requires Plain(b) && size <= 0xFFFF
      requires b.size == size as nat && b.units == LenUnits(size) && b.jmp == Decode(words)
      modifies this
      ensures ok == (b.jmp.opcode == JMP_OPCODE)
      ensures ok ==> Plain(Prepared(b)) && Jumps(Prepared(b))
    {
      hide Decode, LenUnits, IsJmp;
      LastCommand(words);
      this.size := size;
      noInt := false;
      ok := IsJmp(words.op);
      if ok {
        noInt := words.op & JMP_IE_1 != JMP_IE_1;
      }
    }
  }

  /** The two tests link_and_run_cmdbuf makes on the last command. */
  lemma LastCommand(w: Words)
    ensures IsJmp(w.op) <==> Decode(w).opcode == JMP_OPCODE
    ensures w.op & JMP_IE_1 == JMP_IE_1 <==> Decode(w).ie
  {
    OpcodeOfJmp(w.op);
    IeBit(w.op);
  }

  lemma OpcodeOfJmp(op: bv32)
    ensures IsJmp(op) <==> op >> 27 == JMP_OPCODE
  {
  }

  lemma IeBit(op: bv32)
    ensures op & JMP_IE_1 == JMP_IE_1 <==> op & JMP_IE_1 != 0
  {
  }

  lemma {:induction false} FirstWithId(list: seq<Buf>, id: nat, i: nat)
    requires i < |list| && list[i].id == id && forall j :: 0 <= j < i ==> list[j].id != id
    ensures FindById(list, id) == Some(i)
    decreases i
  {
    if i > 0 {
      FirstWithId(list[1..], id, i - 1);
    }
  }

  lemma {:induction false} FirstExecuting(list: seq<Buf>, addr: nat, i: nat)
    requires i < |list| && Executing(list[i], addr) && forall j :: 0 <= j < i ==> !Executing(list[j], addr)
    ensures FindByAddr(list, addr) == Some(i)
    decreases i
  {
    if i > 0 {
      FirstExecuting(list[1..], addr, i - 1);
    }
  }

  /** The linking loop, one node at a time. */
  lemma LinkLoopUnfolds(cfg: Config, c: Core, i: nat)
    ensures i + 1 >= |c.list| ==> LinkLoop(cfg, c, i) == c
    ensures i + 1 < |c.list| && c.list[i + 1].done ==> LinkLoop(cfg, c, i) == LinkLoop(cfg, c, i + 1)
    ensures i + 1 < |c.list| && !c.list[i + 1].done ==> LinkLoop(cfg, c, i) == LinkLoop(cfg, LinkStep(cfg, c, i), i + 1)
  {
  }

  lemma UnlinkUnfolds(list: seq<Buf>, k: nat)
    ensures k < |list| && list[k].linked ==>
              UnlinkFrom(list, k) == UnlinkFrom(list[k := list[k].(linked := false)], k + 1)
    ensures !(k < |list| && list[k].linked) ==> UnlinkFrom(list, k) == list
  {
  }

  /** Removal as two updates: the node goes, then its predecessor is redirected. */
  lemma RemoveThenRejoin(cfg: Config, c: Core, i: nat)
    requires i < |c.list|
    ensures var rest := c.list[..i] + c.list[i + 1..];
            VcmdSpec.DelinkRemove(cfg, c, i) == c.(list :=
              if i == 0 then rest
              else rest[i - 1 := rest[i - 1].(
                jmp := Rejoined(cfg, rest[i - 1].jmp, rest[i..], c.dur > INT_MIN_SUM_OF_IMAGE_SIZE))])
  {
    hide Rejoined;
    var rest := c.list[..i] + c.list[i + 1..];
    assert rest[i..] == c.list[i + 1..];
  }

  class VcmdCore {
    const cfg: Config
    const idDump: nat
    const regDump: nat
    var list: seq<CmdBuf>
    var rdy: nat
    var dur: nat
    var working: bool
    var abortedId: nat
    var regs: Regs
    ghost var bufs: seq<Buf>
    ghost var completed: nat

    /** bufs describes the objects of the queue, and no object is queued twice. */
    ghost predicate Valid()
      reads this, list
    {
      && |bufs| == |list|
      && (forall i :: 0 <= i < |list| ==> list[i].Plain(bufs[i]))
      && (forall i {:trigger list[i].Jumps(bufs[i])} :: 0 <= i < |list| ==> list[i].Jumps(bufs[i]))
      && forall i, j :: 0 <= i < j < |list| ==> list[i] != list[j]
    }

    ghost function Abs(): Core
      reads this
    {
      Core(bufs, rdy, dur, working, abortedId, regs, completed)
    }

    constructor (cfg: Config, idDump: nat, regDump: nat)
      ensures Valid() && this.cfg == cfg && this.idDump == idDump && this.regDump == regDump
      ensures Abs() == Core([], 0, 0, false, 0, Regs(0, 0, 0, 0), 0)
    {
      this.cfg, this.idDump, this.regDump := cfg, idDump, regDump;
      list, rdy, dur, working, abortedId, regs := [], 0, 0, false, 0, Regs(0, 0, 0, 0);
      bufs, completed := [], 0;
    }

    method MarkLinked(i: nat, v: bool)
      requires Valid() && i < |list|
      modifies list[i], this`bufs
      ensures Valid() && bufs == old(bufs[i := bufs[i].(linked := v)])
    {
      hide Decode, LenUnits;
      assert list[i].Jumps(bufs[i]);
      list[i].linked := v;
      bufs := bufs[i := bufs[i].(linked := v)];
      forall j | 0 <= j < |list|
        ensures list[j].Jumps(bufs[j])
      {
        assert old(list[j].Jumps(bufs[j]));
      }
    }

    method MarkDone(i: nat)
      requires Valid() && i < |list|
      modifies list[i], this`bufs
      ensures Valid() && bufs == old(bufs[i := bufs[i].(done := true, status := StatusOk)])
    {
      hide Decode, LenUnits;
      assert list[i].Jumps(bufs[i]);
      list[i].done, list[i].status := true, StatusOk;
      bufs := bufs[i := bufs[i].(done := true, status := StatusOk)];
      forall j | 0 <= j < |list|
        ensures list[j].Jumps(bufs[j])
      {
        assert old(list[j].Jumps(bufs[j]));
      }
    }

    method SetStatusAt(i: nat, s: Status)
      requires Valid() && i < |list|
      modifies list[i], this`bufs
      ensures Valid() && Abs() == SetStatus(old(Abs()), i, s)
    {
      hide Decode, LenUnits;
      assert list[i].Jumps(bufs[i]);
      list[i].status := s;
      bufs := bufs[i := bufs[i].(status := s)];
      forall j | 0 <= j < |list|
        ensures list[j].Jumps(bufs[j])
      {
        assert old(list[j].Jumps(bufs[j]));
      }
    }

    /** Writing the last words of the buffer at i, which decode to jmp. */
    method WriteWords(i: nat, w: Words, ghost jmp: Jmp)
      requires Valid() && i < |list| && jmp == Decode(w)
      modifies list[i], this`bufs
      ensures Valid() && bufs == old(bufs[i := bufs[i].(jmp := jmp)])
    {
      assert list[i].Jumps(bufs[i]);
      list[i].words := w;
      bufs := bufs[i := bufs[i].(jmp := jmp)];
      assert list[i].Jumps(bufs[i]);
      forall j | 0 <= j < |list| && j != i
        ensures list[j].Jumps(bufs[j])
      {
        assert old(list[j].Jumps(bufs[j]));
      }
    }

    method JumpToNext(i: nat)
      requires Valid() && i + 1 < |list|
      modifies list[i], this`bufs
      ensures Valid()
      ensures bufs == old(var next := bufs[i + 1];
                bufs[i := bufs[i].(jmp := JumpTo(cfg.newHw, bufs[i].jmp, next.addr, next.id, next.units))])
    {
      var next := list[i + 1];
      var t := Target(next.addr, next.id, next.size);
      assert list[i].Jumps(bufs[i]) && next.Jumps(bufs[i + 1]);
      LinkDecodes(cfg.newHw, list[i].words, t);
      WriteWords(i, LinkWords(cfg.newHw, list[i].words, t),
                 JumpTo(cfg.newHw, bufs[i].jmp, bufs[i + 1].addr, bufs[i + 1].id, bufs[i + 1].units));
    }

    /** In a chain every JMP leads to the next buffer, with a length that covers it. */
    lemma ChainCovers(d: nat, l: nat, i: nat)
      requires Valid() && Chain(cfg, bufs, d, l) && d <= i && i + 1 < l <= |list|
      ensures var j := Decode(list[i].words);
              && j.rdy && j.addr == list[i + 1].addr && (cfg.newHw ==> j.id == list[i + 1].id)
              && list[i + 1].size as nat <= 8 * (j.len as nat) < list[i + 1].size as nat + 8
    {
      hide Decode, LenUnits;
      assert list[i].Jumps(bufs[i]) && list[i + 1].Jumps(bufs[i + 1]);
      assert Names(cfg, bufs[i].jmp, bufs[i + 1]);
      LengthCovers(list[i + 1].size);
    }

    method ForceInterrupt(i: nat)
      requires Valid() && i < |list|
      modifies list[i], this`bufs
      ensures Valid() && bufs == old(bufs[i := bufs[i].(jmp := bufs[i].jmp.(ie := true))])
    {
      assert list[i].Jumps(bufs[i]);
      SetIeDecodes(list[i].words);
      WriteWords(i, SetIeWords(list[i].words), bufs[i].jmp.(ie := true));
    }

    /** Interrupt pacing for the buffer at i, which has just been linked. */
    method ChargeAt(i: nat)
      requires Valid() && i < |list|
      modifies this`dur, list[i], this`bufs
      ensures Valid() && old(Charge(dur, bufs[i])) == (dur, bufs[i]) && bufs == old(bufs)[i := bufs[i]]
    {
      if list[i].noInt {
        dur := (dur + list[i].time) % U32;
        if dur >= INT_MIN_SUM_OF_IMAGE_SIZE {
          ForceInterrupt(i);
          dur := 0;
        }
      }
    }

    method LinkFirst(k: nat)
      requires Valid()
      modifies this`rdy, this`dur, this`bufs, list
      ensures Valid() && Abs() == VcmdSpec.LinkFirst(old(Abs()), k)
    {
      if k < |list| && !list[k].linked {
        rdy := Inc(rdy);
        MarkLinked(k, true);
        dur := 0;
        ChargeAt(k);
      }
    }

    /** One step of the linking loop: the buffer at i is made to jump to the next one. */
    method LinkPair(i: nat)
      requires Valid() && i + 1 < |list| && !list[i + 1].done
      modifies this`rdy, this`dur, this`bufs, list
      ensures Valid() && Abs() == LinkStep(cfg, old(Abs()), i)
    {
      hide Charge, JumpTo, CmdBuf.Jumps;
      JumpToNext(i);
      MarkLinked(i + 1, true);
      rdy := Inc(rdy);
      ChargeAt(i + 1);
    }

    /** vcmd_link_cmdbuf; k past the end stands for a null node. */
    method LinkCmdbufs(k: nat)
      requires Valid()
      modifies this`rdy, this`dur, this`bufs, list
      ensures Valid() && Abs() == Link(cfg, old(Abs()), k)
    {
      hide LinkLoop, LinkStep, VcmdSpec.LinkFirst, CmdBuf.Jumps;
      LinkFirst(k);
      var i := k;
      while i + 1 < |list|
        invariant Valid() && k <= i
        invariant LinkLoop(cfg, Abs(), i) == Link(cfg, old(Abs()), k)
      {
        LinkLoopUnfolds(cfg, Abs(), i);
        if !list[i + 1].done {
          LinkPair(i);
        }
        i := i + 1;
      }
      LinkLoopUnfolds(cfg, Abs(), i);
    }

    /** vcmd_delink_cmdbuf. */
    method DelinkCmdbufs(k: nat)
      requires Valid()
      modifies this`rdy, this`completed, this`bufs, list
      ensures Valid() && Abs() == Delink(old(Abs()), k)
    {
      hide CmdBuf.Jumps, UnlinkFrom;
      var i := k;
      while i < |list| && list[i].linked
        invariant Valid() && k <= i
        invariant UnlinkFrom(bufs, i) == UnlinkFrom(old(bufs), k)
        invariant rdy == old(rdy) && completed == old(completed)
        decreases |list| - i
      {
        UnlinkUnfolds(bufs, i);
        MarkLinked(i, false);
        i := i + 1;
      }
      UnlinkUnfolds(bufs, i);
      rdy, completed := 0, 0;
    }

    /** vcmd_start. */
    method StartAt(k: nat)
      requires Valid()
      modifies this`regs, this`working
      ensures Valid() && Abs() == Start(old(Abs()), k)
      ensures !old(working) && k < |list| && rdy != 0 ==>
                && working && regs.addr == list[k].addr && regs.id == list[k].id && regs.ready == rdy
                && list[k].size as nat <= 8 * (regs.len as nat) < list[k].size as nat + 8
      ensures old(working) || k >= |list| || rdy == 0 ==> working == old(working) && regs == old(regs)
    {
      if !working && k < |list| && rdy != 0 {
        assert list[k].Jumps(bufs[k]);
        hide LenUnits;
        LengthCovers(list[k].size);
        regs := Regs(list[k].addr, LenUnits(list[k].size), list[k].id, rdy);
        working := true;
      }
    }

    method RestartAt(base: nat)
      requires Valid()
      modifies this`rdy, this`dur, this`regs, this`working, this`bufs, list
      ensures Valid() && Abs() == Restart(cfg, old(Abs()), base)
    {
      hide Link, Start, CmdBuf.Plain, CmdBuf.Jumps;
      LinkCmdbufs(base);
      if rdy != 0 {
        StartAt(base);
      }
    }

    /** The backward marking loop, from the buffer before r. */
    method MarkDoneBefore(r: nat)
      requires Valid() && r <= |list|
      modifies this`completed, this`bufs, list
      ensures Valid() && Abs() == MarkBack(old(Abs()), r)
    {
      var i := r;
      while i > 0 && !list[i - 1].done
        invariant Valid() && 0 <= i <= r && |list| == old(|list|)
        invariant MarkBack(Abs(), i) == MarkBack(old(Abs()), r)
        decreases i
      {
        i := i - 1;
        MarkOne(i);
      }
      assert i == 0 || bufs[i - 1].done;
    }

    method MarkOne(i: nat)
      requires Valid() && i < |list| && !bufs[i].done
      modifies list[i], this`bufs, this`completed
      ensures Valid() && MarkBack(Abs(), i) == MarkBack(old(Abs()), i + 1)
    {
      MarkDone(i);
      completed := completed + 1;
    }

    // -------------------------------------------------------------- interrupts

    /** The index of the buffer with this id; |list| if there is none. */
    method IndexOfId(id: nat) returns (r: nat)
      requires Valid()
      ensures r <= |list| && FindById(bufs, id) == if r < |list| then Some(r) else None
    {
      r := 0;
      while r < |list| && list[r].id != id
        invariant r <= |list| && forall j :: 0 <= j < r ==> bufs[j].id != id
      {
        r := r + 1;
      }
      if r < |list| {
        FirstWithId(bufs, id, r);
      }
    }

    /** The index of the undone buffer being executed at this address; |list| if there is none. */
    method IndexOfAddr(addr: nat) returns (r: nat)
      requires Valid()
      ensures FindByAddr(bufs, addr) == if r < |list| then Some(r) else None
      ensures r < |list| ==> !bufs[r].done && bufs[r].addr <= addr < bufs[r].addr + bufs[r].size
      ensures forall j :: 0 <= j < r && j < |list| && bufs[j].addr <= addr < bufs[j].addr + bufs[j].size ==> bufs[j].done
    {
      r := 0;
      while r < |list|
        invariant r <= |list| && forall j :: 0 <= j < r ==> !Executing(bufs[j], addr)
      {
        var b := list[r];
        assert b.Jumps(bufs[r]);
        if b.addr <= addr < b.addr + b.size as nat && !b.done {
          FirstExecuting(bufs, addr, r);
          return;
        }
        r := r + 1;
      }
    }

    method IndexOfFault(irq: Irq, rep: Report) returns (r: nat)
      requires Valid()
      ensures Locate(cfg, bufs, irq, rep) == if r < |list| then Some(r) else None
    {
      if cfg.newHw {
        r := IndexOfId(rep.id);
      } else if irq == IrqEndCmd {
        r := |list|;
      } else {
        r := IndexOfAddr(rep.addr);
      }
    }

    /** The first undone buffer from k on; |list| if there is none. */
    method IndexOfUndone(k: nat) returns (r: nat)
      requires Valid()
      ensures r == FirstUndone(bufs, k)
    {
      r := k;
      while r < |list| && list[r].done
        invariant FirstUndone(bufs, r) == FirstUndone(bufs, k)
        decreases |list| - r
      {
        r := r + 1;
      }
    }

    method RecoverAt(base: nat)
      requires Valid()
      modifies this`rdy, this`dur, this`regs, this`working, this`completed, this`bufs, list
      ensures Valid() && Abs() == Recover(cfg, old(Abs()), base)
    {
      hide Restart, Delink, CmdBuf.Plain, CmdBuf.Jumps;
      DelinkCmdbufs(base);
      RestartAt(base);
    }

    method AbortAt(r: nat, swAbort: bool)
      requires Valid() && r < |list|
      modifies this`rdy, this`dur, this`regs, this`working, this`completed, this`bufs, list
      ensures Valid() && Abs() == IsrAt(cfg, old(Abs()), IrqAbort, r, swAbort)
    {
      hide Restart, Delink, MarkBack, CmdBuf.Plain, CmdBuf.Jumps;
      ghost var c := Abs();
      MarkDoneBefore(r + 1);
      DelinkCmdbufs(r + 1);
      assert Abs() == Delink(MarkBack(c, r + 1), r + 1);
      if cfg.encoder && !swAbort {
        RestartAt(r + 1);
      }
    }

    method TimeoutAt(r: nat)
      requires Valid() && r < |list|
      modifies this`rdy, this`dur, this`regs, this`working, this`completed, this`bufs, list
      ensures Valid() && Abs() == IsrAt(cfg, old(Abs()), IrqTimeout, r, false)
    {
      hide Recover, MarkBack, CmdBuf.Plain, CmdBuf.Jumps;
      MarkDoneBefore(r);
      RecoverAt(r);
    }

    method FaultAt(irq: Irq, r: nat)
      requires Valid() && r < |list| && irq != IrqAbort && irq != IrqTimeout
      modifies this`rdy, this`dur, this`regs, this`working, this`completed, this`bufs, list
      ensures Valid() && Abs() == IsrAt(cfg, old(Abs()), irq, r, false)
    {
      hide Recover, MarkBack, CmdBuf.Plain, CmdBuf.Jumps;
      ghost var c := Abs();
      MarkDoneBefore(r + 1);
      if irq == IrqBusErr {
        SetStatusAt(r, StatusBusErr);
      } else if irq == IrqCmdErr {
        SetStatusAt(r, StatusCmdErr);
      }
      RecoverAt(r + 1);
    }

    method StopCore(irq: Irq, rep: Report)
      requires Valid()
      modifies this`working, this`abortedId
      ensures Valid() && Abs() == Stopped(cfg, old(Abs()), irq, rep)
    {
      working := false;
      if irq == IrqAbort {
        abortedId := if cfg.newHw then rep.id else 0;
      }
    }

    method FaultedAt(irq: Irq, r: nat, swAbort: bool)
      requires Valid() && r < |list|
      modifies this`rdy, this`dur, this`regs, this`working, this`completed, this`bufs, list
      ensures Valid() && Abs() == IsrAt(cfg, old(Abs()), irq, r, swAbort)
    {
      hide IsrAt, CmdBuf.Plain, CmdBuf.Jumps;
      if irq == IrqAbort {
        AbortAt(r, swAbort);
      } else {
        SwAbortOnlyForAbort(cfg, Abs(), irq, r, swAbort);
        if irq == IrqTimeout {
          TimeoutAt(r);
        } else {
          FaultAt(irq, r);
        }
      }
    }

    /** The causes that name a buffer and stop the core. */
    method StoppingInterrupt(irq: Irq, rep: Report, swAbort: bool)
      requires Valid() && irq != IrqReset && irq != IrqJmp
      requires list != [] && !(cfg.newHw && rep.id >= TOTAL_DISCRETE_CMDBUF_NUM)
      modifies this`rdy, this`dur, this`regs, this`working, this`completed, this`abortedId, this`bufs, list
      ensures Valid() && Abs() == Isr(cfg, old(Abs()), irq, rep, swAbort)
    {
      hide Recover, MarkBack, FindById, FirstUndone, IsrAt, CmdBuf.Plain, CmdBuf.Jumps;
      StopCore(irq, rep);
      var r := IndexOfFault(irq, rep);
      if r < |list| {
        FaultedAt(irq, r, swAbort);
      }
    }

    /** hantrovcmd_isr for one decoded cause. */
    method Interrupt(irq: Irq, rep: Report, swAbort: bool)
      requires Valid()
      modifies this`rdy, this`dur, this`regs, this`working, this`completed, this`abortedId, this`bufs, list
      ensures Valid() && Abs() == Isr(cfg, old(Abs()), irq, rep, swAbort)
    {
      hide Recover, MarkBack, FindById, FirstUndone, IsrAt, CmdBuf.Plain, CmdBuf.Jumps;
      if list == [] || (cfg.newHw && rep.id >= TOTAL_DISCRETE_CMDBUF_NUM) {
      } else if irq == IrqReset {
        working := false;
        var base := IndexOfUndone(0);
        RecoverAt(base);
      } else if irq == IrqJmp {
        if 0 < rep.id < TOTAL_DISCRETE_CMDBUF_NUM {
          var r := IndexOfId(rep.id);
          if r < |list| {
            MarkDoneBefore(r + 1);
          }
        }
      } else {
        StoppingInterrupt(irq, rep, swAbort);
      }
    }

    // -------------------------------------------------------------- submission

    /** bi_list_insert_node_before: b takes index p. */
    method InsertBefore(p: nat, b: CmdBuf, ghost vb: Buf)
      requires Valid() && p <= |list| && b !in list && b.Plain(vb) && b.Jumps(vb)
      modifies this`list, this`bufs
      ensures Valid() && list == old(list)[..p] + [b] + old(list)[p..]
      ensures bufs == old(bufs)[..p] + [vb] + old(bufs)[p..]
    {
      hide Decode, LenUnits;
      assert forall i :: 0 <= i < |list| ==> list[i].Jumps(bufs[i]);
      list := list[..p] + [b] + list[p..];
      bufs := bufs[..p] + [vb] + bufs[p..];
      forall i | 0 <= i < |list|
        ensures list[i].Jumps(bufs[i])
      {
        if i != p {
          var j := if i < p then i else i - 1;
          assert old(list[j].Jumps(bufs[j]));
        }
      }
    }

    /** The first undone normal-priority buffer; |list| if there is none. */
    method IndexOfUndoneNormal() returns (r: nat)
      requires Valid()
      ensures r == FirstUndoneNormal(bufs, 0)
    {
      r := 0;
      while r < |list| && !(list[r].prio == Normal && !list[r].done)
        invariant FirstUndoneNormal(bufs, r) == FirstUndoneNormal(bufs, 0)
        decreases |list| - r
      {
        r := r + 1;
      }
    }

    /** find_last_linked_cmdbuf. */
    method IndexOfLastLinked(p: nat) returns (k: nat)
      requires Valid() && p < |list|
      ensures k == LastLinked(bufs, p)
    {
      k := p;
      while k > 0
        invariant 0 <= k <= p
        invariant LastLinked(bufs, k) == LastLinked(bufs, p)
      {
        k := k - 1;
        if list[k].linked {
          return;
        }
      }
    }

    method LinkAndRunAt(p: nat)
      requires Valid() && p < |list|
      modifies this`rdy, this`dur, this`regs, this`working, this`bufs, list
      ensures Valid() && Abs() == LinkAndRun(cfg, old(Abs()), p)
    {
      hide Link, Start, FirstUndone, LastLinked, CmdBuf.Plain, CmdBuf.Jumps;
      var k := IndexOfLastLinked(p);
      var recorded := rdy;
      LinkCmdbufs(k);
      if !working {
        var i := IndexOfUndone(k);
        StartAt(i);
      } else if recorded != rdy {
        regs := regs.(ready := rdy);
      }
    }

    method QueueAt(p: nat, b: CmdBuf, ghost vb: Buf)
      requires Valid() && p <= |list| && b !in list && b.Plain(vb) && b.Jumps(vb)
      modifies this`list, this`rdy, this`dur, this`regs, this`working, this`bufs, list, b, b.dumps
      ensures (b.dumps.idDump, b.dumps.regDump)
              == if cfg.newHw then (idDump, regDump) else old((b.dumps.idDump, b.dumps.regDump))
      ensures Valid() && forall x :: x in list ==> x in old(list) || x == b
      ensures Abs() == LinkAndRun(cfg, old(Abs().(list := Abs().list[..p] + [vb] + Abs().list[p..])), p)
    {
      hide LinkAndRun, CmdBuf.Plain, CmdBuf.Jumps;
      if cfg.newHw {
        b.dumps.idDump, b.dumps.regDump := idDump, regDump;
      }
      InsertBefore(p, b, vb);
      LinkAndRunAt(p);
    }

    /** select_vcmd with one core: where the buffer goes, after the abort it may have to wait for. */
    method SelectPlace(prio: Priority, probe: Probe, ghost vb: Buf) returns (ok: bool, p: nat)
      requires Valid() && vb.prio == prio
      modifies this`rdy, this`dur, this`regs, this`working, this`completed, this`abortedId, this`bufs, list
      ensures Valid()
      ensures ok == old(TakesTail(cfg, Abs(), probe) || !ProbeFails(cfg, probe))
      ensures ok ==> Abs() == BeforeInsert(cfg, old(Abs()), vb, probe) && p == InsertAt(cfg, old(Abs()), vb, probe)
      ensures !ok ==> Abs() == old(Abs())
    {
      hide Isr, FirstUndoneNormal, CmdBuf.Jumps;
      ok, p := true, |list|;
      var executed := if cfg.newHw && probe.exeCount != rdy then Inc(probe.exeCount) else probe.exeCount;
      if list == [] || list[|list| - 1].done || rdy == executed {
        return;
      }
      if cfg.newHw && (probe.execId == 0 || probe.execId >= TOTAL_DISCRETE_CMDBUF_NUM) {
        ok := false;
      } else if prio == High {
        if working {
          Interrupt(IrqAbort, probe.abort, true);
        }
        p := IndexOfUndoneNormal();
      }
    }

    /** link_and_run_cmdbuf for a buffer whose last words, for this size, decode to vb.jmp. A
        high-priority buffer waits until its abort has stopped the core. On newer hardware a buffer that
        is queued gets the addresses of this core's register dumps. */
    method LinkAndRunCmdbuf(b: CmdBuf, size: bv32, probe: Probe, ghost vb: Buf) returns (ok: bool)
      requires Valid() && b !in list && b.Plain(vb)
      requires size <= 0xFFFF && vb.size == size as nat && vb.units == LenUnits(size) && vb.jmp == Decode(b.words)
      requires Preempts(cfg, Abs(), vb, probe) ==> !BeforeInsert(cfg, Abs(), vb, probe).working
      modifies this`list, this`rdy, this`dur, this`regs, this`working, this`completed, this`abortedId, this`bufs
      modifies list, b, b.dumps
      ensures Valid() && ok == old(Accepts(cfg, Abs(), vb, probe))
      ensures (b.dumps.idDump, b.dumps.regDump)
              == if ok && cfg.newHw then (idDump, regDump) else old((b.dumps.idDump, b.dumps.regDump))
      ensures Abs() == Submit(cfg, old(Abs()), vb, probe)
      ensures if ok then forall x :: x in list ==> x in old(list) || x == b else list == old(list)
    {
      ghost var c := Abs();
      ok := b.Prepare(size, vb);
      if ok {
        assert Valid() && Abs() == c;
        var p;
        ok, p := SelectPlace(b.prio, probe, vb);
        if ok {
          QueueAt(p, b, Prepared(vb));
        }
      }
    }

    // -------------------------------------------------------------- release

    /** bi_list_remove_node: the node at i leaves the queue. */
    method Remove(i: nat)
      requires Valid() && i < |list|
      modifies this`list, this`bufs
      ensures Valid() && list == old(list)[..i] + old(list)[i + 1..] && bufs == old(bufs)[..i] + old(bufs)[i + 1..]
    {
      list := list[..i] + list[i + 1..];
      bufs := bufs[..i] + bufs[i + 1..];
      forall j | 0 <= j < |list|
        ensures list[j].Jumps(bufs[j])
      {
        var k := if j < i then j else j + 1;
        assert old(list[k].Jumps(bufs[k]));
      }
    }

    method MarkNeedRemove(i: nat)
      requires Valid() && i < |list|
      modifies list[i], this`bufs
      ensures Valid() && bufs == old(bufs[i := bufs[i].(needRemove := true)])
    {
      hide Decode, LenUnits;
      assert list[i].Jumps(bufs[i]);
      list[i].needRemove := true;
      bufs := bufs[i := bufs[i].(needRemove := true)];
      forall j | 0 <= j < |list|
        ensures list[j].Jumps(bufs[j])
      {
        assert old(list[j].Jumps(bufs[j]));
      }
    }

    /** vcmd_delink_rm_cmdbuf without the return of the slot. */
    method DelinkRemove(i: nat)
      requires Valid() && i < |list|
      modifies this`list, this`bufs, list
      ensures Valid() && Abs() == VcmdSpec.DelinkRemove(cfg, old(Abs()), i)
      ensures list == old(list)[..i] + old(list)[i + 1..]
    {
      hide Rejoined, VcmdSpec.DelinkRemove, CmdBuf.Plain, CmdBuf.Jumps;
      RemoveThenRejoin(cfg, Abs(), i);
      ghost var c := Abs();
      Remove(i);
      if i > 0 {
        UpdateJmp(i - 1, dur > INT_MIN_SUM_OF_IMAGE_SIZE);
      }
    }

    /** cmdbuf_update_jmp_cmd for the buffer at i and its successor, if it has one. */
    method UpdateJmp(i: nat, forceIe: bool)
      requires Valid() && i < |list|
      modifies list[i], this`bufs
      ensures Valid()
      ensures bufs == old(bufs)[i := old(bufs[i]).(
                        jmp := Rejoined(cfg, old(bufs[i].jmp), old(bufs)[i + 1..], forceIe))]
    {
      var w := list[i].words;
      assert list[i].Jumps(bufs[i]);
      ghost var jmp := Rejoined(cfg, bufs[i].jmp, bufs[i + 1..], forceIe);
      var next := None;
      if i + 1 < |list| {
        var t := Target(list[i + 1].addr, list[i + 1].id, list[i + 1].size);
        assert list[i + 1].Jumps(bufs[i + 1]);
        next := Some(t);
        EncodersAgree(cfg.newHw, w, t);
        LinkDecodes(cfg.newHw, w, t);
        SetIeDecodes(LinkWords(cfg.newHw, w, t));
      } else {
        CutDecodes(cfg.newHw, w, forceIe);
      }
      WriteWords(i, UpdateWords(cfg.newHw, w, next, forceIe), jmp);
    }

    // -------------------------------------------------------------- power management

    /** vcmd_pm_suspend for this core, with the report of the abort it triggers. */
    method SuspendCore(rep: Report)
      requires Valid()
      modifies this`rdy, this`dur, this`regs, this`working, this`completed, this`abortedId, this`bufs, list
      ensures Valid() && Abs() == Suspend(cfg, old(Abs()), rep)
    {
      if working {
        Interrupt(IrqAbort, rep, true);
      }
    }

    /** vcmd_pm_resume for this core. */
    method ResumeCore()
      requires Valid()
      modifies this`rdy, this`dur, this`regs, this`working, this`bufs, list
      ensures Valid() && Abs() == Resume(cfg, old(Abs()))
    {
      hide Link, Start, FindById, FirstUndone, CmdBuf.Plain, CmdBuf.Jumps;
      if !working {
        var r := IndexOfId(abortedId);
        if r < |list| {
          LinkCmdbufs(r + 1);
          var i := IndexOfUndone(r);
          if rdy != 0 {
            StartAt(i);
          }
        }
      }
    }
  }
}
