/** What interrupts do to the queue. */
module VcmdRecovery {
  import opened JmpWords
  import opened VcmdSpec
  import opened VcmdChain

  /** The unchanging part of a queue: membership, order and everything but progress. */
  predicate SameQueue(list: seq<Buf>, list': seq<Buf>) {
    && |list'| == |list|
    && forall i :: 0 <= i < |list| ==> SameWork(list[i], list'[i])
  }

  predicate SameWork(a: Buf, b: Buf) {
    b == a.(linked := b.linked, done := b.done, status := b.status, jmp := b.jmp) && b.jmp.opcode == a.jmp.opcode
  }

  /** The start registers point at b. */
  predicate StartsAt(regs: Regs, b: Buf) {
    regs.addr == b.addr && regs.len == b.units && regs.id == b.id
  }

  /** The queue facts that survive every recovery path, before delinking. */
  predicate Sound(cfg: Config, list: seq<Buf>, d: nat, l: nat) {
    Pattern(list, d, l) && Chain(cfg, list, d, l) && TailStops(list) && DistinctIds(list)
  }

  lemma DelinkAt(cfg: Config, c: Core, d: nat, l: nat)
    requires Sound(cfg, c.list, d, l)
    ensures var c' := Delink(c, d);
            && Sound(cfg, c'.list, d, d)
            && c' == c.(list := c'.list, rdy := 0, completed := 0)
            && |c'.list| == |c.list|
            && forall i :: 0 <= i < |c.list| ==> c'.list[i] == c.list[i].(linked := i < d)
  {
    UnlinkPattern(c.list, d, d, l);
    KeepsDistinct(c.list, Delink(c, d).list);
  }

  /** The unfinished work, all of it and nothing else, has been handed to the hardware again. */
  predicate Recovered(c: Core, c': Core, d: nat) {
    && d <= |c'.list|
    && SameQueue(c.list, c'.list)
    && (forall i :: 0 <= i < |c'.list| ==> (c'.list[i].done <==> i < d))
    && c'.rdy == |c'.list| - d
    && (c'.working <==> d < |c'.list|)
    && (d < |c'.list| ==> StartsAt(c'.regs, c'.list[d]) && c'.regs.ready == c'.rdy)
  }

  /** Starting an idle core whose buffers have all been linked and counted. */
  lemma StartLinked(cfg: Config, c: Core, c1: Core, d: nat)
    requires !c1.working && c1.completed == 0 && c1.rdy == |c1.list| - d
    requires Sound(cfg, c1.list, d, |c1.list|) && SameQueue(c.list, c1.list)
    ensures var c' := if c1.rdy != 0 then Start(c1, d) else c1;
            && InvAt(cfg, c', d, |c.list|)
            && Recovered(c, c', d)
            && c'.list == c1.list && c'.abortedId == c1.abortedId
            && c' == Start(c1, d)
  {
    QueueIsShort(c1.list);
  }

  lemma RestartAt(cfg: Config, c: Core, d: nat)
    requires !c.working && c.rdy == 0 && c.completed == 0
    requires Sound(cfg, c.list, d, d)
    ensures var c' := Restart(cfg, c, d);
            && InvAt(cfg, c', d, |c.list|)
            && Recovered(c, c', d)
            && c'.abortedId == c.abortedId
            && forall i :: 0 <= i < |c.list| ==> SameBuf(c'.list[i], c.list[i])
  {
    QueueIsShort(c.list);
    var c1 := Link(cfg, c, d);
    if d < |c.list| {
      LinkFromUnlinked(cfg, c, d);
      RelinkedKeeps(cfg, c.list, c1.list, d, d, d);
      forall i | 0 <= i < |c.list|
        ensures SameBuf(c1.list[i], c.list[i]) && SameWork(c.list[i], c1.list[i])
      {
        assert RelinkedAt(cfg, c.list, c1.list, d, d, i);
      }
    }
    StartLinked(cfg, c, c1, d);
  }

  lemma MarkAt(cfg: Config, c: Core, r: nat, d: nat, l: nat)
    requires d <= r <= l && Sound(cfg, c.list, d, l)
    ensures var c' := MarkBack(c, r);
            && Sound(cfg, c'.list, r, l)
            && c' == c.(list := c'.list, completed := c.completed + r - d)
            && SameQueue(c.list, c'.list)
            && (forall i :: 0 <= i < |c.list| ==>
                  c'.list[i] == if d <= i < r then c.list[i].(done := true, status := StatusOk) else c.list[i])
  {
    MarkBackMarks(c, r, d, r);
    KeepsDistinct(c.list, MarkBack(c, r).list);
  }

  /** The report is current: it names the last done buffer or a linked one still to be executed, and
      for a timeout the latter. */
  predicate Current(list: seq<Buf>, irq: Irq, r: nat) {
    && r < |list| && list[r].linked
    && (r + 1 < |list| ==> !list[r + 1].done)
    && (irq == IrqTimeout ==> !list[r].done)
  }

  /** The number of done buffers after an error interrupt about the one at r. */
  function DoneAfter(irq: Irq, r: nat): nat {
    if irq == IrqTimeout then r else r + 1
  }

  predicate IsError(irq: Irq) {
    irq == IrqBusErr || irq == IrqTimeout || irq == IrqCmdErr || irq == IrqEndCmd
  }

  /** Statuses after an error: only the faulting buffer gets one. */
  predicate OnlyFaulted(irq: Irq, r: nat, list: seq<Buf>, list': seq<Buf>)
    requires r < |list| == |list'|
  {
    forall i :: 0 <= i < |list| ==>
      list'[i].status ==
        if i == r && irq == IrqBusErr then StatusBusErr
        else if i == r && irq == IrqCmdErr then StatusCmdErr
        else if !list[i].done && list'[i].done then StatusOk
        else list[i].status
  }

  lemma RecoverAt(cfg: Config, c: Core, d: nat, l: nat)
    requires !c.working && Sound(cfg, c.list, d, l)
    ensures var c' := Recover(cfg, c, d);
            && InvAt(cfg, c', d, |c.list|)
            && Recovered(c, c', d)
            && c'.abortedId == c.abortedId
            && (forall i :: 0 <= i < |c.list| ==> c'.list[i].status == c.list[i].status)
  {
    DelinkAt(cfg, c, d, l);
    RestartAt(cfg, Delink(c, d), d);
  }

  lemma StatusAt(cfg: Config, c: Core, r: nat, s: Status, d: nat, l: nat)
    requires r < |c.list| && Sound(cfg, c.list, d, l)
    ensures var c' := SetStatus(c, r, s);
            Sound(cfg, c'.list, d, l) && SameQueue(c.list, c'.list) && c' == c.(list := c'.list)
  {
    KeepsDistinct(c.list, SetStatus(c, r, s).list);
  }

  lemma SameQueueTrans(a: seq<Buf>, b: seq<Buf>, c: seq<Buf>)
    requires SameQueue(a, b) && SameQueue(b, c)
    ensures SameQueue(a, c)
  {
    forall i | 0 <= i < |a|
      ensures SameWork(a[i], c[i])
    {
      assert SameWork(a[i], b[i]) && SameWork(b[i], c[i]);
    }
  }

  lemma FinishError(cfg: Config, c: Core, c2: Core, d: nat, l: nat)
    requires !c2.working && Sound(cfg, c2.list, d, l) && SameQueue(c.list, c2.list)
    ensures var c' := Recover(cfg, c2, d);
            && InvAt(cfg, c', d, |c.list|)
            && Recovered(c, c', d)
            && c'.abortedId == c2.abortedId
            && (forall i :: 0 <= i < |c.list| ==> c'.list[i].status == c2.list[i].status)
            && (forall i :: 0 <= i < |c.list| ==> (c'.list[i].done <==> i < d))
  {
    RecoverAt(cfg, c2, d, l);
    SameQueueTrans(c.list, c2.list, Recover(cfg, c2, d).list);
  }

  /** The core just before an error path delinks: marked, and the fault noted. */
  function Settled(c: Core, irq: Irq, r: nat): Core
    requires r < |c.list|
  {
    var c1 := MarkBack(c, DoneAfter(irq, r));
    if irq == IrqBusErr then SetStatus(c1, r, StatusBusErr)
    else if irq == IrqCmdErr then SetStatus(c1, r, StatusCmdErr) else c1
  }

  lemma SettledIs(cfg: Config, c: Core, irq: Irq, r: nat, d: nat, l: nat)
    requires IsError(irq) && Current(c.list, irq, r) && Sound(cfg, c.list, d, l)
    ensures d <= DoneAfter(irq, r)
    ensures var c2 := Settled(c, irq, r);
            && Sound(cfg, c2.list, DoneAfter(irq, r), l)
            && |c2.list| == |c.list| && c2 == c.(list := c2.list, completed := c2.completed)
            && forall i :: 0 <= i < |c.list| ==> SettledAt(irq, r, d, c.list[i], c2.list[i], i)
  {
    var d' := DoneAfter(irq, r);
    assert d <= d' <= l;
    hide Sound, MarkBack, SameQueue, SettledAt;
    MarkAt(cfg, c, d', d, l);
    var c1, c2 := MarkBack(c, d'), Settled(c, irq, r);
    if irq == IrqBusErr || irq == IrqCmdErr {
      StatusAt(cfg, c1, r, if irq == IrqBusErr then StatusBusErr else StatusCmdErr, d', l);
    }
    forall i | 0 <= i < |c.list|
      ensures SettledAt(irq, r, d, c.list[i], c2.list[i], i)
    {
      SettledOne(irq, r, d, c.list[i], c1.list[i], i);
    }
  }

  function Noted(irq: Irq, b: Buf): Buf {
    if irq == IrqBusErr then b.(status := StatusBusErr)
    else if irq == IrqCmdErr then b.(status := StatusCmdErr) else b
  }

  lemma SettledOne(irq: Irq, r: nat, d: nat, b: Buf, b1: Buf, i: nat)
    requires b1 == if d <= i < DoneAfter(irq, r) then b.(done := true, status := StatusOk) else b
    ensures SettledAt(irq, r, d, b, if i == r then Noted(irq, b1) else b1, i)
  {
  }

  predicate SettledAt(irq: Irq, r: nat, d: nat, b: Buf, b': Buf, i: nat) {
    b' == b.(
      done := b.done || d <= i < DoneAfter(irq, r),
      status := if i == r && irq == IrqBusErr then StatusBusErr
                else if i == r && irq == IrqCmdErr then StatusCmdErr
                else if d <= i < DoneAfter(irq, r) then StatusOk else b.status)
  }

  lemma SettledQueue(irq: Irq, r: nat, d: nat, list: seq<Buf>, list': seq<Buf>)
    requires r < |list| == |list'| && (forall i :: 0 <= i < |list| ==> (list[i].done <==> i < d))
    requires d <= DoneAfter(irq, r)
    requires forall i :: 0 <= i < |list| ==> SettledAt(irq, r, d, list[i], list'[i], i)
    ensures SameQueue(list, list') && OnlyFaulted(irq, r, list, list')
    ensures forall i :: 0 <= i < |list| ==> (list'[i].done <==> i < DoneAfter(irq, r))
  {
    forall i | 0 <= i < |list|
      ensures SameWork(list[i], list'[i])
    {
      assert SettledAt(irq, r, d, list[i], list'[i], i);
    }
  }

  /** Recovery restarts exactly the unfinished work: error interrupts. */
  lemma ErrorRecovers(cfg: Config, c: Core, irq: Irq, r: nat, d: nat, l: nat)
    requires IsError(irq) && Current(c.list, irq, r)
    requires !c.working && Sound(cfg, c.list, d, l)
    ensures var c' := IsrAt(cfg, c, irq, r, false);
            && InvAt(cfg, c', DoneAfter(irq, r), |c.list|)
            && Recovered(c, c', DoneAfter(irq, r))
            && OnlyFaulted(irq, r, c.list, c'.list)
            && c'.abortedId == c.abortedId
  {
    hide Recover, MarkBack, Recovered, InvAt, SettledAt, SameQueue, Chain, DistinctIds;
    var d', c2 := DoneAfter(irq, r), Settled(c, irq, r);
    SettledIs(cfg, c, irq, r, d, l);
    SettledQueue(irq, r, d, c.list, c2.list);
    assert IsrAt(cfg, c, irq, r, false) == Recover(cfg, c2, d');
    hide Sound, Settled, IsrAt;
    FinishError(cfg, c, c2, d', l);
  }

  /** Recovery restarts exactly the unfinished work: the reset interrupt, in any state. */
  lemma ResetRecovers(cfg: Config, c: Core, d: nat, l: nat)
    requires Sound(cfg, c.list, d, l)
    ensures var c' := Recover(cfg, c.(working := false), FirstUndone(c.list, 0));
            && InvAt(cfg, c', d, |c.list|)
            && Recovered(c, c', d)
            && c'.abortedId == c.abortedId
            && (forall i :: 0 <= i < |c.list| ==> c'.list[i].status == c.list[i].status)
  {
    FirstUndoneAt(c.list, 0, d, l);
    RecoverAt(cfg, c.(working := false), d, l);
  }

  /** An abort the driver asked for leaves the core idle with everything after the aborted buffer
      unlinked; one it did not ask for restarts an encoder and leaves a decoder idle. */
  lemma AbortStops(cfg: Config, c: Core, r: nat, d: nat, l: nat, swAbort: bool)
    requires Current(c.list, IrqAbort, r)
    requires !c.working && Sound(cfg, c.list, d, l)
    requires forall i :: r < i < |c.list| ==> c.list[i].id != c.abortedId
    ensures var c' := IsrAt(cfg, c, IrqAbort, r, swAbort);
            && SameQueue(c.list, c'.list)
            && c'.abortedId == c.abortedId
            && (if cfg.encoder && !swAbort
                then InvAt(cfg, c', r + 1, |c.list|) && Recovered(c, c', r + 1)
                else InvAt(cfg, c', r + 1, r + 1) && !c'.working)
  {
    assert d <= r + 1 <= l;
    hide Sound, InvAt, MarkBack, Delink, Restart;
    if cfg.encoder && !swAbort {
      AbortRestarts(cfg, c, r, d, l);
    } else {
      AbortIdles(cfg, c, r, d, l);
    }
  }

  lemma AbortRestarts(cfg: Config, c: Core, r: nat, d: nat, l: nat)
    requires r < |c.list| && d <= r + 1 <= l && !c.working && Sound(cfg, c.list, d, l)
    ensures var c' := Recover(cfg, MarkBack(c, r + 1), r + 1);
            c'.abortedId == c.abortedId && InvAt(cfg, c', r + 1, |c.list|) && Recovered(c, c', r + 1)
  {
    hide Sound, InvAt, MarkBack, Recover, SameQueue;
    MarkAt(cfg, c, r + 1, d, l);
    FinishError(cfg, c, MarkBack(c, r + 1), r + 1, l);
  }

  lemma AbortIdles(cfg: Config, c: Core, r: nat, d: nat, l: nat)
    requires r < |c.list| && d <= r + 1 <= l && !c.working && Sound(cfg, c.list, d, l)
    requires forall i :: r < i < |c.list| ==> c.list[i].id != c.abortedId
    ensures var c' := Delink(MarkBack(c, r + 1), r + 1);
            SameQueue(c.list, c'.list) && c'.abortedId == c.abortedId && InvAt(cfg, c', r + 1, r + 1) && !c'.working
  {
    hide Sound, InvAt, MarkBack, Delink, SameQueue;
    MarkAt(cfg, c, r + 1, d, l);
    var c1 := MarkBack(c, r + 1);
    StopAt(cfg, c1, r + 1, l);
    SameQueueTrans(c.list, c1.list, Delink(c1, r + 1).list);
  }

  lemma StopAt(cfg: Config, c: Core, d: nat, l: nat)
    requires !c.working && Sound(cfg, c.list, d, l)
    requires forall i :: d <= i < |c.list| ==> c.list[i].id != c.abortedId
    ensures var c' := Delink(c, d);
            && InvAt(cfg, c', d, d) && SameQueue(c.list, c'.list) && c' == c.(list := c'.list, rdy := 0, completed := 0)
  {
    DelinkAt(cfg, c, d, l);
    var list' := Delink(c, d).list;
    forall i | 0 <= i < |c.list|
      ensures SameWork(c.list[i], list'[i]) && list'[i].id == c.list[i].id
    {
    }
  }
}
