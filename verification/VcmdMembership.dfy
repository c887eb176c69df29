/** What holds in every state, whatever the hardware reports: apart from submission and release, nothing
    the driver does changes which buffers are queued, their order, or anything but their progress. */
module VcmdMembership {
  import opened Wrappers
  import opened JmpWords
  import opened VcmdSpec
  import opened VcmdRecovery
  import opened VcmdSafety

  lemma SameRefl(list: seq<Buf>)
    ensures SameQueue(list, list)
  {
    forall i | 0 <= i < |list|
      ensures SameWork(list[i], list[i])
    {
    }
  }

  lemma UpdateSame(list: seq<Buf>, i: nat, b: Buf)
    requires i < |list| && SameWork(list[i], b)
    ensures SameQueue(list, list[i := b])
  {
    SameRefl(list);
  }

  lemma ChargeSame(dur: nat, b: Buf)
    ensures SameWork(b, Charge(dur, b).1)
  {
  }

  lemma LinkStepSame(cfg: Config, c: Core, i: nat)
    requires i + 1 < |c.list|
    ensures SameQueue(c.list, LinkStep(cfg, c, i).list)
  {
    var c', next := LinkStep(cfg, c, i), c.list[i + 1];
    ChargeSame(c.dur, next.(linked := true));
    SameRefl(c.list);
    hide Charge;
    if !next.done {
      assert SameWork(c.list[i], c'.list[i]) && SameWork(c.list[i + 1], c'.list[i + 1]);
    }
  }

  lemma {:induction false} LinkLoopSame(cfg: Config, c: Core, i: nat)
    ensures SameQueue(c.list, LinkLoop(cfg, c, i).list)
    decreases |c.list| - i
  {
    if i + 1 < |c.list| {
      var c1 := LinkStep(cfg, c, i);
      LinkStepSame(cfg, c, i);
      LinkLoopSame(cfg, c1, i + 1);
      SameQueueTrans(c.list, c1.list, LinkLoop(cfg, c1, i + 1).list);
    } else {
      SameRefl(c.list);
    }
  }

  lemma LinkSame(cfg: Config, c: Core, k: nat)
    ensures SameQueue(c.list, Link(cfg, c, k).list)
  {
    var c1 := LinkFirst(c, k);
    SameRefl(c.list);
    if k < |c.list| && !c.list[k].linked {
      ChargeSame(0, c.list[k].(linked := true));
      UpdateSame(c.list, k, c1.list[k]);
    }
    LinkLoopSame(cfg, c1, k);
    SameQueueTrans(c.list, c1.list, Link(cfg, c, k).list);
  }

  lemma {:induction false} UnlinkSame(list: seq<Buf>, k: nat)
    ensures SameQueue(list, UnlinkFrom(list, k))
    decreases |list| - k
  {
    SameRefl(list);
    if k < |list| && list[k].linked {
      var list' := list[k := list[k].(linked := false)];
      UpdateSame(list, k, list'[k]);
      UnlinkSame(list', k + 1);
      SameQueueTrans(list, list', UnlinkFrom(list', k + 1));
    }
  }

  lemma {:induction false} MarkBackSame(c: Core, r: nat)
    requires r <= |c.list|
    ensures SameQueue(c.list, MarkBack(c, r).list)
    decreases r
  {
    SameRefl(c.list);
    if r > 0 && !c.list[r - 1].done {
      var b := c.list[r - 1].(done := true, status := StatusOk);
      var c1 := c.(list := c.list[r - 1 := b], completed := c.completed + 1);
      UpdateSame(c.list, r - 1, b);
      MarkBackSame(c1, r - 1);
      SameQueueTrans(c.list, c1.list, MarkBack(c1, r - 1).list);
    }
  }

  lemma StartSame(c: Core, k: nat)
    ensures Start(c, k).list == c.list
  {
  }

  lemma RestartSame(cfg: Config, c: Core, base: nat)
    ensures SameQueue(c.list, Restart(cfg, c, base).list)
  {
    LinkSame(cfg, c, base);
    StartSame(Link(cfg, c, base), base);
  }

  lemma RecoverSame(cfg: Config, c: Core, base: nat)
    ensures SameQueue(c.list, Recover(cfg, c, base).list)
  {
    UnlinkSame(c.list, base);
    RestartSame(cfg, Delink(c, base), base);
    SameQueueTrans(c.list, Delink(c, base).list, Recover(cfg, c, base).list);
  }

  lemma AbortSame(cfg: Config, c: Core, r: nat, swAbort: bool)
    requires r < |c.list|
    ensures SameQueue(c.list, IsrAt(cfg, c, IrqAbort, r, swAbort).list)
  {
    hide Restart, MarkBack, UnlinkFrom, SameQueue;
    var c1 := MarkBack(c, r + 1);
    var c2 := Delink(c1, r + 1);
    MarkBackSame(c, r + 1);
    UnlinkSame(c1.list, r + 1);
    SameQueueTrans(c.list, c1.list, c2.list);
    RestartSame(cfg, c2, r + 1);
    SameQueueTrans(c.list, c2.list, Restart(cfg, c2, r + 1).list);
  }

  lemma FaultSame(cfg: Config, c: Core, irq: Irq, r: nat, swAbort: bool)
    requires r < |c.list| && irq != IrqAbort
    ensures SameQueue(c.list, IsrAt(cfg, c, irq, r, swAbort).list)
  {
    var n := if irq == IrqTimeout then r else r + 1;
    var c1 := MarkBack(c, n);
    MarkBackSame(c, n);
    var s := if irq == IrqBusErr then StatusBusErr else StatusCmdErr;
    var c2 := if irq == IrqBusErr || irq == IrqCmdErr then SetStatus(c1, r, s) else c1;
    UpdateSame(c1.list, r, c2.list[r]);
    assert c2.list == c1.list[r := c2.list[r]];
    RecoverSame(cfg, c2, n);
    hide Recover, MarkBack, SameQueue;
    SameQueueTrans(c.list, c1.list, c2.list);
    SameQueueTrans(c.list, c2.list, Recover(cfg, c2, n).list);
  }

  /** Every interrupt, with any report: the same buffers in the same order. */
  lemma IsrKeepsMembers(cfg: Config, c: Core, irq: Irq, rep: Report, swAbort: bool)
    ensures SameQueue(c.list, Isr(cfg, c, irq, rep, swAbort).list)
  {
    hide IsrAt, MarkBack, Recover, SameQueue;
    SameRefl(c.list);
    RecoverSame(cfg, c.(working := false), FirstUndone(c.list, 0));
    if irq == IrqJmp {
      if FindById(c.list, rep.id).Some? {
        MarkBackSame(c, FindById(c.list, rep.id).value + 1);
      }
    } else if Locate(cfg, c.list, irq, rep).Some? {
      var r, c1 := Locate(cfg, c.list, irq, rep).value, Stopped(cfg, c, irq, rep);
      if irq == IrqAbort {
        AbortSame(cfg, c1, r, swAbort);
      } else {
        FaultSame(cfg, c1, irq, r, swAbort);
      }
    }
  }

  lemma ResumeKeepsMembers(cfg: Config, c: Core)
    ensures SameQueue(c.list, Resume(cfg, c).list)
  {
    hide Link, Start, SameQueue;
    SameRefl(c.list);
    if FindById(c.list, c.abortedId).Some? {
      var r := FindById(c.list, c.abortedId).value;
      var c1 := Link(cfg, c, r + 1);
      LinkSame(cfg, c, r + 1);
      StartSame(c1, FirstUndone(c1.list, r));
    }
  }

  /** An accepted submission adds the one buffer, in one place; a rejected one adds nothing. */
  lemma SubmitAddsOne(cfg: Config, c: Core, b: Buf, probe: Probe)
    ensures SameQueue(c.list, BeforeInsert(cfg, c, b, probe).list)
    ensures Accepts(cfg, c, b, probe) ==>
              SameQueue(Insert(BeforeInsert(cfg, c, b, probe).list, InsertAt(cfg, c, b, probe), Prepared(b)),
                        Submit(cfg, c, b, probe).list)
    ensures !Accepts(cfg, c, b, probe) ==> Submit(cfg, c, b, probe) == c
  {
    SameRefl(c.list);
    IsrKeepsMembers(cfg, c, IrqAbort, probe.abort, true);
    var c1, p := BeforeInsert(cfg, c, b, probe), InsertAt(cfg, c, b, probe);
    LinkAndRunSame(cfg, c1.(list := Insert(c1.list, p, Prepared(b))), p);
    hide BeforeInsert, InsertAt, LinkAndRun, SameQueue, Accepts;
  }

  /** When a submission is turned down, in any state: the last command is no JMP; or the hardware is newer,
      the queue holds unfinished work up to its tail that the executed count, as the driver reads it, does
      not say is executed, and the id reported as executing is out of range. Nothing changes then. */
  lemma RejectionIsExact(cfg: Config, c: Core, b: Buf, probe: Probe)
    ensures Submit(cfg, c, b, probe) == c <==>
              || b.jmp.opcode != 0x19
              || (cfg.newHw && c.list != [] && !c.list[|c.list| - 1].done
                  && c.rdy != (if probe.exeCount != c.rdy then (probe.exeCount + 1) % 0x1_0000_0000 else probe.exeCount)
                  && (probe.execId == 0 || probe.execId >= 256))
    ensures Submit(cfg, c, b, probe) != c ==> |Submit(cfg, c, b, probe).list| == |c.list| + 1
  {
    SubmitAddsOne(cfg, c, b, probe);
    hide Submit, BeforeInsert, InsertAt, SameWork;
  }

  /** p is the place of the first normal-priority buffer that is not done, or the end. */
  predicate InFrontOfNormal(list: seq<Buf>, p: nat) {
    && p <= |list| && (p < |list| ==> list[p].prio == Normal && !list[p].done)
    && forall i :: 0 <= i < p ==> list[i].prio == High || list[i].done
  }

  /** Where an accepted buffer goes: to the tail, for normal priority or where everything is finished or
      executed as far as the driver can read; otherwise, once a working core has been stopped, in front of
      the first normal-priority buffer that is not done. */
  lemma PlaceIsExact(cfg: Config, c: Core, b: Buf, probe: Probe)
    requires Submit(cfg, c, b, probe) != c
    ensures var exe := if cfg.newHw && probe.exeCount != c.rdy then (probe.exeCount + 1) % 0x1_0000_0000
                       else probe.exeCount;
            var list' := Submit(cfg, c, b, probe).list;
            if b.prio == Normal || c.list == [] || c.list[|c.list| - 1].done || c.rdy == exe then
              SameQueue(c.list + [Prepared(b)], list')
            else
              var c1 := if c.working then Isr(cfg, c, IrqAbort, probe.abort, true) else c;
              exists p: nat :: InFrontOfNormal(c1.list, p) && SameQueue(Insert(c1.list, p, Prepared(b)), list')
  {
    SubmitAddsOne(cfg, c, b, probe);
    hide Isr, LinkAndRun, SameQueue;
    var c1, p := BeforeInsert(cfg, c, b, probe), InsertAt(cfg, c, b, probe);
    var list' := Submit(cfg, c, b, probe).list;
    assert SameQueue(Insert(c1.list, p, Prepared(b)), list');
    if Preempts(cfg, c, b, probe) {
      assert c1 == if c.working then Isr(cfg, c, IrqAbort, probe.abort, true) else c;
      assert p == FirstUndoneNormal(c1.list, 0);
      assert InFrontOfNormal(c1.list, p);
    } else {
      assert Insert(c.list, |c.list|, Prepared(b)) == c.list + [Prepared(b)];
    }
  }

  lemma LinkAndRunSame(cfg: Config, c: Core, p: nat)
    requires p < |c.list|
    ensures SameQueue(c.list, LinkAndRun(cfg, c, p).list)
  {
    hide Link, Start, SameQueue;
    var k := LastLinked(c.list, p);
    var c1 := Link(cfg, c, k);
    LinkSame(cfg, c, k);
    StartSame(c1, FirstUndone(c1.list, k));
  }

  // ---------------------------------------------------------------- sizes

  predicate AllFit(cfg: Config, list: seq<Buf>) {
    forall i :: 0 <= i < |list| ==> SizeFits(cfg, list[i].size)
  }

  lemma SameQueueFits(cfg: Config, list: seq<Buf>, list': seq<Buf>)
    requires SameQueue(list, list') && AllFit(cfg, list)
    ensures AllFit(cfg, list')
  {
    forall i | 0 <= i < |list'|
      ensures SizeFits(cfg, list'[i].size)
    {
      assert SameWork(list[i], list'[i]);
    }
  }

  lemma SubmitFits(cfg: Config, c: Core, b: Buf, probe: Probe)
    requires AllFit(cfg, c.list) && SizeFits(cfg, b.size)
    ensures AllFit(cfg, Submit(cfg, c, b, probe).list)
  {
    SubmitAddsOne(cfg, c, b, probe);
    hide Submit, Accepts, BeforeInsert, InsertAt;
    if Accepts(cfg, c, b, probe) {
      var c1, p := BeforeInsert(cfg, c, b, probe), InsertAt(cfg, c, b, probe);
      SameQueueFits(cfg, c.list, c1.list);
      var list' := Insert(c1.list, p, Prepared(b));
      assert AllFit(cfg, list');
      SameQueueFits(cfg, list', Submit(cfg, c, b, probe).list);
    }
  }

  lemma ReleaseFits(cfg: Config, c: Core, r: nat)
    requires r < |c.list| && AllFit(cfg, c.list)
    ensures AllFit(cfg, Release(c, r).list)
  {
    ReleasedAreOld(c, r);
    hide Release;
    forall i | 0 <= i < |Release(c, r).list|
      ensures SizeFits(cfg, Release(c, r).list[i].size)
    {
      assert Release(c, r).list[i] in Release(c, r).list;
    }
  }
}
