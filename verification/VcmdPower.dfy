/** Suspend and resume, and the exact conditions under which recovery is exact. */
module VcmdPower {
  import opened Wrappers
  import opened JmpWords
  import opened VcmdSpec
  import opened VcmdChain
  import opened VcmdRecovery
  import opened VcmdQueue
  import opened VcmdMembership

  /** vcmd_pm_suspend for this core: a working one is aborted by software. */
  function Suspend(cfg: Config, c: Core, rep: Report): Core {
    if c.working then Isr(cfg, c, IrqAbort, rep, true) else c
  }

  /** Linking from just behind a done buffer of an idle core takes in every undone buffer. */
  lemma LinkBehindDone(cfg: Config, c: Core, k: nat, d: nat)
    requires Sound(cfg, c.list, d, d) && k <= d && 0 < k < |c.list| && c.rdy < U32
    ensures var c' := Link(cfg, c, k);
            && Sound(cfg, c'.list, d, |c.list|) && SameRest(c, c') && SameQueue(c.list, c'.list)
            && c'.rdy == (c.rdy + |c.list| - d) % U32
            && forall i :: 0 <= i < |c.list| ==> c'.list[i].status == c.list[i].status
  {
    var w := if k < d then d - 1 else d;
    if k < d {
      LinkFromLinked(cfg, c, k, d, d);
    } else {
      LinkFromUnlinked(cfg, c, d);
    }
    var list' := Link(cfg, c, k).list;
    RelinkedKeeps(cfg, c.list, list', w, d, d);
    forall i | 0 <= i < |c.list|
      ensures SameWork(c.list[i], list'[i]) && list'[i].status == c.list[i].status
    {
      assert RelinkedAt(cfg, c.list, list', w, d, i);
    }
  }

  /** Resuming an idle core whose aborted buffer, at r, is still queued. */
  lemma ResumeRestarts(cfg: Config, c: Core, r: nat, d: nat)
    requires InvAt(cfg, c, d, d) && !c.working
    requires FindById(c.list, c.abortedId) == Some(r)
    ensures r < d
    ensures var c' := Resume(cfg, c);
            InvAt(cfg, c', d, |c.list|) && Recovered(c, c', d) && c'.abortedId == c.abortedId
    ensures var c' := Resume(cfg, c);
            forall i :: 0 <= i < |c.list| ==> c'.list[i].status == c.list[i].status
  {
    assert r < d;
    hide InvAt, Recovered;
    if r + 1 < |c.list| {
      ResumeLinks(cfg, c, r, d);
    } else {
      ResumeNothing(cfg, c, r, d);
    }
  }

  lemma ResumeLinks(cfg: Config, c: Core, r: nat, d: nat)
    requires InvAt(cfg, c, d, d) && !c.working && FindById(c.list, c.abortedId) == Some(r)
    requires r < d && r + 1 < |c.list|
    ensures var c' := Resume(cfg, c);
            && InvAt(cfg, c', d, |c.list|) && Recovered(c, c', d) && c'.abortedId == c.abortedId
            && forall i :: 0 <= i < |c.list| ==> c'.list[i].status == c.list[i].status
  {
    hide Link, Start, FindById, Chain, DistinctIds, TailStops, SameQueue;
    QueueIsShort(c.list);
    LinkBehindDone(cfg, c, r + 1, d);
    var c1 := Link(cfg, c, r + 1);
    FirstUndoneAt(c1.list, r, d, |c.list|);
    hide Pattern, Sound, Recovered, InvAt;
    StartLinked(cfg, c, c1, d);
  }

  lemma ResumeNothing(cfg: Config, c: Core, r: nat, d: nat)
    requires InvAt(cfg, c, d, d) && !c.working && FindById(c.list, c.abortedId) == Some(r)
    requires r < d && r + 1 == |c.list|
    ensures Resume(cfg, c) == c && InvAt(cfg, c, d, |c.list|) && Recovered(c, c, d)
  {
    hide Chain, DistinctIds, TailStops;
    SameRefl(c.list);
  }

  /** Resume keeps the invariant in every state. */
  lemma ResumeKeeps(cfg: Config, c: Core)
    requires Inv(cfg, c)
    ensures Inv(cfg, Resume(cfg, c)) && SameQueue(c.list, Resume(cfg, c).list)
  {
    var d, l := SoundOf(cfg, c);
    if !c.working && FindById(c.list, c.abortedId).Some? {
      ResumeRestarts(cfg, c, FindById(c.list, c.abortedId).value, d);
      assert InvAt(cfg, Resume(cfg, c), d, |c.list|);
    }
  }

  lemma FoundIs(list: seq<Buf>, r: nat)
    requires DistinctIds(list) && r < |list|
    ensures FindById(list, list[r].id) == Some(r)
  {
    forall i | 0 <= i < |list| && i != r
      ensures list[i].id != list[r].id
    {
      if i < r {
        assert Differ(list[i], list[r]);
      } else {
        assert Differ(list[r], list[i]);
      }
    }
  }

  lemma IdIsNeverZero(list: seq<Buf>)
    requires DistinctIds(list)
    ensures FindById(list, 0) == None
  {
  }

  /** Suspending a working core: the buffers up to the aborted one are done, the core is idle, and
      nothing has left the queue or changed places. */
  lemma SuspendStops(cfg: Config, c: Core, rep: Report) returns (r: nat)
    requires Inv(cfg, c) && c.working
    requires Credible(cfg, c, IrqAbort, rep) && !(cfg.newHw && rep.id >= TOTAL_DISCRETE_CMDBUF_NUM)
    ensures Locate(cfg, c.list, IrqAbort, rep) == Some(r) && r < |c.list|
    ensures var c1 := Suspend(cfg, c, rep);
            && InvAt(cfg, c1, r + 1, r + 1) && !c1.working && SameQueue(c.list, c1.list)
            && c1.abortedId == if cfg.newHw then c.list[r].id else 0
  {
    var d, l := SoundOf(cfg, c);
    r := Locate(cfg, c.list, IrqAbort, rep).value;
    var c0 := Stopped(cfg, c, IrqAbort, rep);
    forall i | r < i < |c.list|
      ensures c.list[i].id != c0.abortedId
    {
      assert Differ(c.list[r], c.list[i]);
    }
    AbortStops(cfg, c0, r, d, l, true);
    assert Suspend(cfg, c, rep) == IsrAt(cfg, c0, IrqAbort, r, true);
  }

  /** Suspend followed by resume of a working core: the buffers up to the aborted one are done, the
      later ones are handed to the hardware again in the same order, and the core runs iff there are
      any. Older hardware does not tell the driver which buffer was aborted, and there the pair loses
      nothing exactly when nothing was left to do. */
  lemma SuspendThenResume(cfg: Config, c: Core, rep: Report)
    requires Inv(cfg, c) && c.working
    requires Credible(cfg, c, IrqAbort, rep) && !(cfg.newHw && rep.id >= TOTAL_DISCRETE_CMDBUF_NUM)
    ensures var r := Locate(cfg, c.list, IrqAbort, rep).value;
            var c1 := Suspend(cfg, c, rep);
            var c2 := Resume(cfg, c1);
            && !c1.working && Inv(cfg, c2)
            && (Recovered(c, c2, r + 1) <==> cfg.newHw || r + 1 == |c.list|)
            && (!cfg.newHw ==> c2 == c1)
  {
    hide Link, UnlinkFrom, MarkBack, Delink, Start, Chain, TailStops, Isr;
    var r := SuspendStops(cfg, c, rep);
    var c1 := Suspend(cfg, c, rep);
    if cfg.newHw {
      hide InvAt, Credible, Recovered;
      ResumeAfterAbort(cfg, c, c1, r);
    } else {
      IdIsNeverZero(c1.list);
    }
  }

  lemma ResumeAfterAbort(cfg: Config, c: Core, c1: Core, r: nat)
    requires r < |c.list| && InvAt(cfg, c1, r + 1, r + 1) && !c1.working && SameQueue(c.list, c1.list)
    requires c1.abortedId == c.list[r].id
    ensures Recovered(c, Resume(cfg, c1), r + 1) && Inv(cfg, Resume(cfg, c1))
  {
    assert SameWork(c.list[r], c1.list[r]);
    FoundIs(c1.list, r);
    hide Resume, Chain, TailStops, Pattern, DistinctIds, FindById;
    ResumeRestarts(cfg, c1, r, r + 1);
    SameQueueTrans(c.list, c1.list, Resume(cfg, c1).list);
    assert InvAt(cfg, Resume(cfg, c1), r + 1, |c1.list|);
  }

  // ---------------------------------------------------------------- stale reports

  lemma {:induction false} UnlinkFirst(list: seq<Buf>, k: nat)
    ensures SameDone(list, UnlinkFrom(list, k))
    ensures forall i :: 0 <= i < |list| ==> (i < k ==> UnlinkFrom(list, k)[i] == list[i])
    ensures k < |list| ==> !UnlinkFrom(list, k)[k].linked
    decreases |list| - k
  {
    if k < |list| && list[k].linked {
      UnlinkFirst(list[k := list[k].(linked := false)], k + 1);
    }
  }

  /** Restarting from a buffer that is already done counts it as ready work: one too many. */
  lemma StaleRestartCounts(cfg: Config, c: Core, base: nat, d: nat, l: nat)
    requires Sound(cfg, c.list, d, l) && base < d
    ensures var c' := Recover(cfg, c, base);
            SameDone(c.list, c'.list) && c'.rdy == |c.list| - d + 1
  {
    hide Chain, TailStops, LinkLoop, UnlinkFrom;
    var c1 := Delink(c, base);
    UnlinkFirst(c.list, base);
    var c2 := LinkFirst(c1, base);
    LinkLoopCounts(cfg, c2, base);
    SameDoneCounts(c.list, c2.list, base + 1);
    UndoneCount(c.list, base + 1, d);
    QueueIsShort(c.list);
  }

  /** A report that names a finished buffer before the last one changes no done flag and counts one
      buffer too many. */
  lemma StaleError(cfg: Config, c: Core, irq: Irq, r: nat, d: nat)
    requires !c.working && Sound(cfg, c.list, d, |c.list|) && IsError(irq) && r < |c.list|
    requires !Current(c.list, irq, r)
    ensures var c' := IsrAt(cfg, c, irq, r, false);
            SameDone(c.list, c'.list) && c'.rdy == |c.list| - d + 1
  {
    hide Link, UnlinkFrom, Delink, Start, Restart, Chain, TailStops;
    var base := DoneAfter(irq, r);
    var c1 := MarkBack(c, base);
    assert base < d;
    assert c1 == c;
    if irq == IrqBusErr || irq == IrqCmdErr {
      var s := if irq == IrqBusErr then StatusBusErr else StatusCmdErr;
      StatusAt(cfg, c1, r, s, d, |c.list|);
      StaleRestartCounts(cfg, SetStatus(c1, r, s), base, d, |c.list|);
    } else {
      StaleRestartCounts(cfg, c1, base, d, |c.list|);
    }
  }

  /** Exactly the unfinished work has been handed back, whichever buffers count as finished now. */
  ghost predicate HandsBack(c: Core, c': Core) {
    exists d: nat :: Recovered(c, c', d)
  }

  lemma RecoveredAt(c: Core, c': Core, d: nat, d': nat)
    requires d <= |c.list| && (forall i :: 0 <= i < |c.list| ==> (c.list[i].done <==> i < d))
    requires SameDone(c.list, c'.list) && Recovered(c, c', d')
    ensures d' == d
  {
    assert d < |c.list| ==> !c'.list[d].done;
    assert d' < |c.list| ==> !c.list[d'].done;
  }

  lemma HandsBackAt(c: Core, c': Core, d: nat)
    requires d <= |c.list| && (forall i :: 0 <= i < |c.list| ==> (c.list[i].done <==> i < d))
    requires SameDone(c.list, c'.list)
    ensures HandsBack(c, c') <==> Recovered(c, c', d)
  {
    if HandsBack(c, c') {
      var d': nat :| Recovered(c, c', d');
      RecoveredAt(c, c', d, d');
    }
  }

  /** The error interrupt in terms of the search it makes. */
  lemma LocatedRecovery(cfg: Config, c: Core, irq: Irq, rep: Report, swAbort: bool, d: nat)
    requires InvAt(cfg, c, d, |c.list|) && c.working && IsError(irq)
    ensures HandsBack(c, Isr(cfg, c, irq, rep, swAbort)) <==>
              if cfg.newHw && rep.id >= TOTAL_DISCRETE_CMDBUF_NUM then
                d < |c.list| && c.completed % U32 == 0 && StartsAt(c.regs, c.list[d])
              else
                match Locate(cfg, c.list, irq, rep)
                case Some(r) => Current(c.list, irq, r)
                case None => d == |c.list| && c.rdy == 0
  {
    hide IsrAt, Recovered, Current, Chain, DistinctIds, TailStops;
    var c0 := Stopped(cfg, c, irq, rep);
    if cfg.newHw && rep.id >= TOTAL_DISCRETE_CMDBUF_NUM {
      IgnoredReport(cfg, c, d);
    } else {
      match Locate(cfg, c.list, irq, rep) {
        case Some(r) =>
          SwAbortOnlyForAbort(cfg, c0, irq, r, swAbort);
          FoundReport(cfg, c, c0, irq, r, d);
        case None =>
          LostReport(c, c0, d);
      }
    }
  }

  /** An error interrupt of a working core hands back exactly the unfinished work iff its report names a
      buffer it can be about. Newer hardware reports an id: the buffer has to be the last finished one or a
      later one, for a timeout a later one. Older hardware reports an address, which has to lie in an
      unfinished buffer; that of the last finished one is not found any more. A report that names nothing
      leaves the core idle with its buffers linked, which hands back the work only where there was none and
      the counter happened to be zero. One with an id out of range is ignored, so that the work is with the
      hardware as if handed back only where the core had just been started at its first undone buffer. */
  lemma RecoveryIsExact(cfg: Config, c: Core, irq: Irq, rep: Report, swAbort: bool, d: nat)
    requires InvAt(cfg, c, d, |c.list|) && c.working && IsError(irq)
    ensures HandsBack(c, Isr(cfg, c, irq, rep, swAbort)) <==>
              if cfg.newHw && rep.id >= TOTAL_DISCRETE_CMDBUF_NUM then
                d < |c.list| && c.completed % U32 == 0 && StartsAt(c.regs, c.list[d])
              else if cfg.newHw then
                || (exists r :: 0 <= r < |c.list| && c.list[r].id == rep.id
                                && d <= (if irq == IrqTimeout then r else r + 1))
                || (d == |c.list| && c.rdy == 0 && forall r :: 0 <= r < |c.list| ==> c.list[r].id != rep.id)
              else
                || (irq != IrqEndCmd
                    && exists r :: d <= r < |c.list| && c.list[r].addr <= rep.addr < c.list[r].addr + c.list[r].size)
                || (d == |c.list| && c.rdy == 0)
  {
    LocatedRecovery(cfg, c, irq, rep, swAbort, d);
    hide Isr, HandsBack, Chain, TailStops;
    match Locate(cfg, c.list, irq, rep)
    case Some(r) =>
      if cfg.newHw {
        forall i | 0 <= i < |c.list| && i != r
          ensures c.list[i].id != rep.id
        {
          if i < r {
            assert Differ(c.list[i], c.list[r]);
          } else {
            assert Differ(c.list[r], c.list[i]);
          }
        }
      } else {
        assert d <= r;
      }
    case None =>
      assert !cfg.newHw && irq != IrqEndCmd ==> forall i :: d <= i < |c.list| ==> !Executing(c.list[i], rep.addr);
  }

  /** On older hardware an address inside a finished buffer, in a queue whose buffers lie apart, is found
      nowhere: the error leaves the core idle and everything else - list, statuses, counter - as it was. */
  lemma FinishedAddressIsLost(cfg: Config, c: Core, irq: Irq, rep: Report, swAbort: bool, i: nat)
    requires !cfg.newHw && c.list != [] && IsError(irq)
    requires i < |c.list| && c.list[i].done && c.list[i].addr <= rep.addr < c.list[i].addr + c.list[i].size
    requires forall j :: 0 <= j < |c.list| && j != i ==>
               c.list[j].addr + c.list[j].size <= c.list[i].addr || c.list[i].addr + c.list[i].size <= c.list[j].addr
    ensures Isr(cfg, c, irq, rep, swAbort) == c.(working := false)
  {
    assert forall j :: 0 <= j < |c.list| ==> !Executing(c.list[j], rep.addr);
  }

  lemma IgnoredReport(cfg: Config, c: Core, d: nat)
    requires InvAt(cfg, c, d, |c.list|) && c.working
    ensures HandsBack(c, c) <==> d < |c.list| && c.completed % U32 == 0 && StartsAt(c.regs, c.list[d])
  {
    SameRefl(c.list);
    HandsBackAt(c, c, d);
    QueueIsShort(c.list);
    AddsNothing(|c.list| - d, c.completed);
  }

  lemma AddsNothing(x: nat, y: nat)
    requires x < U32
    ensures (x + y) % U32 == x <==> y % U32 == 0
  {
  }

  lemma FoundReport(cfg: Config, c: Core, c0: Core, irq: Irq, r: nat, d: nat)
    requires InvAt(cfg, c, d, |c.list|) && c0.list == c.list && !c0.working && IsError(irq) && r < |c.list|
    ensures HandsBack(c, IsrAt(cfg, c0, irq, r, false)) <==> Current(c.list, irq, r)
  {
    var c' := IsrAt(cfg, c0, irq, r, false);
    hide IsrAt;
    if Current(c.list, irq, r) {
      ErrorRecovers(cfg, c0, irq, r, d, |c.list|);
      assert Recovered(c, c', DoneAfter(irq, r));
    } else {
      StaleError(cfg, c0, irq, r, d);
      HandsBackAt(c, c', d);
    }
  }

  lemma LostReport(c: Core, c0: Core, d: nat)
    requires d <= |c.list| && (forall i :: 0 <= i < |c.list| ==> (c.list[i].done <==> i < d))
    requires c0.list == c.list && !c0.working && c0.rdy == c.rdy
    ensures HandsBack(c, c0) <==> d == |c.list| && c.rdy == 0
  {
    SameRefl(c.list);
    HandsBackAt(c, c0, d);
  }

  /** Resuming an idle core hands its unfinished work to the hardware again iff the aborted buffer is
      still queued - it may have been released since - or nothing was left to do. */
  lemma ResumeIsExact(cfg: Config, c: Core, d: nat)
    requires InvAt(cfg, c, d, d) && !c.working
    ensures HandsBack(c, Resume(cfg, c)) <==> FindById(c.list, c.abortedId).Some? || d == |c.list|
  {
    if FindById(c.list, c.abortedId).Some? {
      ResumeRestarts(cfg, c, FindById(c.list, c.abortedId).value, d);
      assert Recovered(c, Resume(cfg, c), d);
    } else {
      LostReport(c, c, d);
    }
  }
}
