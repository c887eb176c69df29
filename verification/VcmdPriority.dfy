/** Priority order among the buffers the hardware has not executed yet. */
module VcmdPriority {
  import opened Wrappers
  import opened JmpWords
  import opened VcmdSpec
  import opened VcmdChain
  import opened VcmdRecovery
  import opened VcmdQueue
  import opened VcmdSafety
  import opened VcmdPower
  import opened VcmdRuns
  import opened VcmdPacing

  /** a may be run before b: high priority first, and within a class in submission order. */
  predicate Before(a: Buf, b: Buf) {
    if a.prio == b.prio then a.stamp < b.stamp else a.prio == High
  }

  /** The queue from index e on is in priority order. */
  predicate Ordered(list: seq<Buf>, e: nat) {
    forall i, j :: e <= i < j < |list| ==> Before(list[i], list[j])
  }

  /** From index e on each class is in submission order; nothing is said across classes. */
  predicate ByClass(list: seq<Buf>, e: nat) {
    forall i, j :: e <= i < j < |list| ==> InClass(list[i], list[j])
  }

  predicate InClass(a: Buf, b: Buf) {
    a.prio == b.prio ==> a.stamp < b.stamp
  }

  /** b was submitted with high priority and stands behind a normal buffer. */
  predicate Overtaken(a: Buf, b: Buf) {
    a.prio == Normal && b.prio == High
  }

  /** No high-priority buffer is queued behind a normal one that is executed but not yet done. */
  predicate NoneOvertaken(list: seq<Buf>, d: nat, ran: nat) {
    forall i, j :: d <= i < ran && i < j < |list| ==> !Overtaken(list[i], list[j])
  }

  /** The engine seen together with the hardware: the first ran buffers have been executed. */
  datatype Traced = Traced(core: Core, ran: nat)

  ghost predicate OrderInv(cfg: Config, t: Traced) {
    exists d: nat, l: nat :: InvAt(cfg, t.core, d, l) && OrderAt(t, d, l)
  }

  predicate OrderAt(t: Traced, d: nat, l: nat) {
    d <= t.ran <= l && Ordered(t.core.list, t.ran) && ByClass(t.core.list, d)
  }

  function DoneCount(list: seq<Buf>): nat {
    FirstUndone(list, 0)
  }

  predicate Ignored(cfg: Config, c: Core, rep: Report) {
    c.list == [] || (cfg.newHw && rep.id >= TOTAL_DISCRETE_CMDBUF_NUM)
  }

  /** What the hardware has executed after a step. A reset forgets executions the driver had not been
      told about; every other step takes over what the interrupt reported. */
  function RanAfter(cfg: Config, t: Traced, s: Step): nat
    requires Enabled(cfg, t.core, s)
  {
    var c' := Next(cfg, t.core, s);
    match s
    case StepIsr(irq, rep, _) =>
      if irq == IrqReset && !Ignored(cfg, t.core, rep) then DoneCount(c'.list) else Max(t.ran, DoneCount(c'.list))
    case StepSubmit(b, probe) =>
      if Accepts(cfg, t.core, b, probe) then Max(t.ran, DoneCount(BeforeInsert(cfg, t.core, b, probe).list))
      else t.ran
    case StepSuspend(_) => Max(t.ran, DoneCount(c'.list))
    case StepRelease(_) => Max(0, t.ran - (|t.core.list| - |c'.list|))
    case StepResume => t.ran
  }

  /** An error or abort report names the buffer the hardware is executing or has just executed. */
  predicate HonestReport(cfg: Config, t: Traced, irq: Irq, rep: Report) {
    irq == IrqReset || irq == IrqJmp ||
    match Locate(cfg, t.core.list, irq, rep)
    case None => true
    case Some(r) => t.ran <= DoneAfter(irq, r)
  }

  /** The executed count, as the driver reads it, stands for the first n buffers of the queue: those
      finished since the last start and the ones executed behind them. */
  predicate CountStandsFor(cfg: Config, t: Traced, probe: Probe, n: nat) {
    var d := DoneCount(t.core.list);
    d <= n + t.core.completed && Executed(cfg, t.core, probe) == (t.core.completed + n - d) % U32
  }

  /** The executed count of a working core may lag behind the hardware, but is not ahead of it. */
  predicate HonestCount(cfg: Config, t: Traced, probe: Probe) {
    t.core.working ==> exists n: nat :: n <= t.ran && CountStandsFor(cfg, t, probe, n)
  }

  /** What ties the inputs of a step to the hardware. A JMP interrupt names an executed buffer. A
      submission carries a later stamp than anything queued. Nothing is said about the executed count:
      newer hardware reads it from a word that no restart clears. */
  predicate Honest(cfg: Config, t: Traced, s: Step) {
    match s
    case StepIsr(irq, rep, _) =>
      && HonestReport(cfg, t, irq, rep)
      && (irq == IrqJmp ==> match FindById(t.core.list, rep.id) case None => true case Some(r) => r < t.ran)
    case StepSubmit(b, probe) =>
      && (forall i :: 0 <= i < |t.core.list| ==> t.core.list[i].stamp < b.stamp)
      && (Preempts(cfg, t.core, b, probe) && t.core.working ==> HonestReport(cfg, t, IrqAbort, probe.abort))
    case StepSuspend(rep) => t.core.working ==> HonestReport(cfg, t, IrqAbort, rep)
    case StepRelease(_) => true
    case StepResume => true
  }

  // ---------------------------------------------------------------- the queue keeps its order

  lemma LaterByClass(list: seq<Buf>, list': seq<Buf>, e: nat, e': nat)
    requires ByClass(list, e) && e <= e' && SameQueue(list, list')
    ensures ByClass(list', e')
  {
    forall i, j | e' <= i < j < |list'|
      ensures InClass(list'[i], list'[j])
    {
      assert SameWork(list[i], list'[i]) && SameWork(list[j], list'[j]);
      assert InClass(list[i], list[j]);
    }
  }

  /** Priority order among all undone buffers, given it among the unexecuted ones: nothing high stands
      behind something normal that was executed in between. */
  lemma OrderedFrom(list: seq<Buf>, d: nat, ran: nat)
    requires Ordered(list, ran) && ByClass(list, d) && d <= ran
    ensures Ordered(list, d) <==> NoneOvertaken(list, d, ran)
  {
    if NoneOvertaken(list, d, ran) {
      forall i, j | d <= i < j < |list|
        ensures Before(list[i], list[j])
      {
        assert InClass(list[i], list[j]);
        if i < ran {
          assert !Overtaken(list[i], list[j]);
        } else {
          assert Before(list[i], list[j]);
        }
      }
    }
    if Ordered(list, d) {
      forall i, j | d <= i < ran && i < j < |list|
        ensures !Overtaken(list[i], list[j])
      {
        assert Before(list[i], list[j]);
      }
    }
  }

  lemma LaterIsOrdered(list: seq<Buf>, list': seq<Buf>, e: nat, e': nat)
    requires Ordered(list, e) && e <= e' && SameQueue(list, list')
    ensures Ordered(list', e')
  {
    forall i, j | e' <= i < j < |list'|
      ensures Before(list'[i], list'[j])
    {
      assert SameWork(list[i], list'[i]) && SameWork(list[j], list'[j]);
      assert Before(list[i], list[j]);
    }
  }

  /** A buffer stamped later than everything queued may go behind its own class, in front of every
      normal buffer if it is high. */
  lemma InsertOrdered(list: seq<Buf>, p: nat, b: Buf, e: nat)
    requires Ordered(list, e) && e <= p <= |list|
    requires forall i :: 0 <= i < |list| ==> list[i].stamp < b.stamp
    requires forall i :: e <= i < p ==> list[i].prio == b.prio || list[i].prio == High
    requires forall i :: p <= i < |list| ==> b.prio == High && list[i].prio == Normal
    ensures Ordered(Insert(list, p, Prepared(b)), e)
  {
    var list' := Insert(list, p, Prepared(b));
    forall i, j | e <= i < j < |list'|
      ensures Before(list'[i], list'[j])
    {
      var i', j' := if i < p then i else i - 1, if j < p then j else j - 1;
      if i != p && j != p {
        assert Before(list[i'], list[j']);
      }
    }
  }

  lemma InsertByClass(list: seq<Buf>, p: nat, b: Buf, d: nat)
    requires ByClass(list, d) && d <= p <= |list|
    requires forall i :: 0 <= i < |list| ==> list[i].stamp < b.stamp
    requires forall i :: p <= i < |list| ==> b.prio == High && list[i].prio == Normal
    ensures ByClass(Insert(list, p, Prepared(b)), d)
  {
    var list' := Insert(list, p, Prepared(b));
    forall i, j | d <= i < j < |list'|
      ensures InClass(list'[i], list'[j])
    {
      var i', j' := if i < p then i else i - 1, if j < p then j else j - 1;
      if i != p && j != p {
        assert InClass(list[i'], list[j']);
      }
    }
  }

  lemma TailOfNormals(list: seq<Buf>, p: nat, e: nat)
    requires Ordered(list, e) && e <= p <= |list| && (p < |list| ==> list[p].prio == Normal)
    ensures forall i :: p <= i < |list| ==> list[i].prio == Normal
  {
    forall i | p < i < |list|
      ensures list[i].prio == Normal
    {
      assert Before(list[p], list[i]);
    }
  }

  lemma DoneCountIs(list: seq<Buf>, d: nat, l: nat)
    requires Pattern(list, d, l)
    ensures DoneCount(list) == d
  {
    FirstUndoneAt(list, 0, d, l);
  }

  /** An interrupt other than reset leaves at least as many buffers linked as were executed. */
  lemma IsrProgress(cfg: Config, t: Traced, irq: Irq, rep: Report, swAbort: bool, d: nat, l: nat)
    returns (d': nat, l': nat)
    requires InvAt(cfg, t.core, d, l) && OrderAt(t, d, l) && irq != IrqReset
    requires Credible(cfg, t.core, irq, rep) && Honest(cfg, t, StepIsr(irq, rep, swAbort))
    ensures InvAt(cfg, Isr(cfg, t.core, irq, rep, swAbort), d', l') && Max(t.ran, d') <= l' && d <= d'
  {
    hide Recover, IsrAt, MarkBack, Ordered, ByClass, Chain, DistinctIds, TailStops;
    var c := t.core;
    if Ignored(cfg, c, rep) {
      d', l' := d, l;
    } else if irq == IrqJmp {
      d' := JmpKeeps(cfg, c, rep.id, d, l);
      l' := l;
    } else {
      ErrorProgress(cfg, c, irq, rep, swAbort, d, l);
      d' := DoneAfter(irq, Locate(cfg, c.list, irq, rep).value);
      l' := if irq == IrqAbort && !(cfg.encoder && !swAbort) then d' else |c.list|;
    }
  }

  lemma IsrOrdered(cfg: Config, t: Traced, irq: Irq, rep: Report, swAbort: bool, d: nat, l: nat)
    returns (d': nat, l': nat)
    requires InvAt(cfg, t.core, d, l) && OrderAt(t, d, l) && irq != IrqReset
    requires Credible(cfg, t.core, irq, rep) && Honest(cfg, t, StepIsr(irq, rep, swAbort))
    ensures var c' := Isr(cfg, t.core, irq, rep, swAbort);
            InvAt(cfg, c', d', l') && OrderAt(Traced(c', Max(t.ran, d')), d', l')
  {
    d', l' := IsrProgress(cfg, t, irq, rep, swAbort, d, l);
    assert Inv(cfg, t.core);
    IsrKeeps(cfg, t.core, irq, rep, swAbort);
    LaterIsOrdered(t.core.list, Isr(cfg, t.core, irq, rep, swAbort).list, t.ran, Max(t.ran, d'));
    LaterByClass(t.core.list, Isr(cfg, t.core, irq, rep, swAbort).list, d, d');
  }

  lemma SubmitPlace(cfg: Config, t: Traced, b: Buf, probe: Probe, d: nat, l: nat)
    requires OrderInv(cfg, t) && CanSubmit(cfg, t.core, b, probe) && Honest(cfg, t, StepSubmit(b, probe))
    requires Pattern(BeforeInsert(cfg, t.core, b, probe).list, d, l)
    ensures var c1 := BeforeInsert(cfg, t.core, b, probe);
            && SameQueue(t.core.list, c1.list)
            && OrderAt(Traced(c1, Max(t.ran, d)), d, l)
            && (Preempts(cfg, t.core, b, probe) ==> !c1.working)
  {
    var c, c1 := t.core, BeforeInsert(cfg, t.core, b, probe);
    var d0: nat, l0: nat :| InvAt(cfg, c, d0, l0) && OrderAt(t, d0, l0);
    if Preempts(cfg, c, b, probe) && c.working {
      var d1, l1 := IsrOrdered(cfg, t, IrqAbort, probe.abort, true, d0, l0);
      PatternUnique(c1.list, d, l, d1, l1);
      assert Inv(cfg, c);
      IsrKeeps(cfg, c, IrqAbort, probe.abort, true);
    } else {
      PatternUnique(c1.list, d, l, d0, l0);
    }
  }

  /** All buffers from index e on have high priority. */
  predicate AllHigh(list: seq<Buf>, e: nat) {
    forall i :: e <= i < |list| ==> list[i].prio == High
  }

  /** A working core whose counters agree, or whose tail is done, has executed its whole queue. */
  lemma CaughtUpMeansExecuted(cfg: Config, t: Traced, probe: Probe)
    requires OrderInv(cfg, t) && t.core.working && TakesTail(cfg, t.core, probe) && HonestCount(cfg, t, probe)
    ensures t.ran == |t.core.list|
  {
    var c := t.core;
    var d: nat, l: nat :| InvAt(cfg, c, d, l) && OrderAt(t, d, l);
    DoneCountIs(c.list, d, l);
    QueueIsShort(c.list);
    var n: nat :| n <= t.ran && CountStandsFor(cfg, t, probe, n);
    if c.rdy == Executed(cfg, c, probe) {
      SameMod(l - d + c.completed, c.completed + n - d);
    }
  }

  lemma SameMod(x: nat, y: nat)
    requires y <= x < y + U32 && x % U32 == y % U32
    ensures x == y
  {
  }

  /** A high-priority buffer that goes to the tail keeps the order iff everything the hardware has not
      executed is high as well. */
  lemma TailOrdered(list: seq<Buf>, b: Buf, e: nat)
    requires Ordered(list, e) && e <= |list| && b.prio == High
    requires forall i :: 0 <= i < |list| ==> list[i].stamp < b.stamp
    ensures Ordered(Insert(list, |list|, Prepared(b)), e) <==> AllHigh(list, e)
  {
    var list' := Insert(list, |list|, Prepared(b));
    if AllHigh(list, e) {
      InsertOrdered(list, |list|, b, e);
    }
    if Ordered(list', e) {
      forall i | e <= i < |list|
        ensures list[i].prio == High
      {
        assert Before(list'[i], list'[|list|]);
      }
    }
  }

  /** Whether a submission keeps the order: it fails exactly when a high-priority buffer is queued at
      the tail behind a normal one that is still to be executed. */
  predicate GoesBehindNormal(cfg: Config, t: Traced, b: Buf, probe: Probe) {
    Accepts(cfg, t.core, b, probe) && b.prio == High && TakesTail(cfg, t.core, probe) && !AllHigh(t.core.list, t.ran)
  }

  /** On a working core this happens iff a normal buffer is still to be executed while the executed
      count stands for the whole queue, undone buffers included. */
  lemma WorkingIsOvertaken(cfg: Config, t: Traced, b: Buf, probe: Probe)
    requires OrderInv(cfg, t) && t.core.working && b.prio == High && b.jmp.opcode == JMP_OPCODE
    ensures GoesBehindNormal(cfg, t, b, probe) <==>
              !AllHigh(t.core.list, t.ran) && CountStandsFor(cfg, t, probe, |t.core.list|)
  {
    var c := t.core;
    var d: nat, l: nat :| InvAt(cfg, c, d, l) && OrderAt(t, d, l);
    DoneCountIs(c.list, d, l);
  }

  /** So it cannot happen while the count is not ahead of the hardware. */
  lemma WorkingIsNeverOvertaken(cfg: Config, t: Traced, b: Buf, probe: Probe)
    requires OrderInv(cfg, t) && t.core.working && HonestCount(cfg, t, probe)
    ensures !GoesBehindNormal(cfg, t, b, probe)
  {
    if TakesTail(cfg, t.core, probe) {
      CaughtUpMeansExecuted(cfg, t, probe);
    }
  }

  lemma SubmitOrdered(cfg: Config, t: Traced, b: Buf, probe: Probe)
    requires OrderInv(cfg, t) && CanSubmit(cfg, t.core, b, probe) && Honest(cfg, t, StepSubmit(b, probe))
    ensures var t' := Traced(Submit(cfg, t.core, b, probe), RanAfter(cfg, t, StepSubmit(b, probe)));
            && (Ordered(t'.core.list, t'.ran) <==> !GoesBehindNormal(cfg, t, b, probe))
            && (!GoesBehindNormal(cfg, t, b, probe) ==> OrderInv(cfg, t'))
  {
    var c, c1 := t.core, BeforeInsert(cfg, t.core, b, probe);
    var d0: nat, l0: nat :| InvAt(cfg, c, d0, l0) && OrderAt(t, d0, l0);
    assert Inv(cfg, c);
    if Accepts(cfg, c, b, probe) {
      var d, l := SubmitQueues(cfg, c, b, probe);
      if GoesBehindNormal(cfg, t, b, probe) {
        SubmitUnordered(cfg, t, b, probe, d, l);
      } else {
        SubmitOrderedAt(cfg, t, b, probe, d, l);
      }
    } else {
      SubmitKeeps(cfg, c, b, probe);
    }
  }

  lemma SubmitUnordered(cfg: Config, t: Traced, b: Buf, probe: Probe, d: nat, l: nat)
    requires OrderInv(cfg, t) && CanSubmit(cfg, t.core, b, probe) && Honest(cfg, t, StepSubmit(b, probe))
    requires GoesBehindNormal(cfg, t, b, probe) && Pattern(t.core.list, d, l)
    requires SameQueue(Insert(t.core.list, |t.core.list|, Prepared(b)), Submit(cfg, t.core, b, probe).list)
    ensures !Ordered(Submit(cfg, t.core, b, probe).list, RanAfter(cfg, t, StepSubmit(b, probe)))
  {
    var c := t.core;
    var d0: nat, l0: nat :| InvAt(cfg, c, d0, l0) && OrderAt(t, d0, l0);
    DoneCountIs(c.list, d0, l0);
    assert RanAfter(cfg, t, StepSubmit(b, probe)) == t.ran;
    var list', list2 := Insert(c.list, |c.list|, Prepared(b)), Submit(cfg, c, b, probe).list;
    hide Submit, Before;
    TailOrdered(c.list, b, t.ran);
    if Ordered(list2, t.ran) {
      SameQueueBack(list', list2);
      LaterIsOrdered(list2, list', t.ran, t.ran);
    }
  }

  lemma SubmitOrderedAt(cfg: Config, t: Traced, b: Buf, probe: Probe, d: nat, l: nat)
    requires OrderInv(cfg, t) && CanSubmit(cfg, t.core, b, probe) && Honest(cfg, t, StepSubmit(b, probe))
    requires Accepts(cfg, t.core, b, probe) && !GoesBehindNormal(cfg, t, b, probe)
    requires var c1 := BeforeInsert(cfg, t.core, b, probe);
             var c' := Submit(cfg, t.core, b, probe);
             && InvAt(cfg, c1, d, l) && InvAt(cfg, c', d, |c'.list|)
             && SameQueue(Insert(c1.list, InsertAt(cfg, t.core, b, probe), Prepared(b)), c'.list)
    ensures var t' := Traced(Submit(cfg, t.core, b, probe), RanAfter(cfg, t, StepSubmit(b, probe)));
            OrderInv(cfg, t') && Ordered(t'.core.list, t'.ran)
  {
    var c, c1, c' := t.core, BeforeInsert(cfg, t.core, b, probe), Submit(cfg, t.core, b, probe);
    var e := Max(t.ran, d);
    DoneCountIs(c1.list, d, l);
    SubmitPlace(cfg, t, b, probe, d, l);
    PlaceOrdered(cfg, c, c1, b, probe, e, d, l);
    LaterIsOrdered(Insert(c1.list, InsertAt(cfg, c, b, probe), Prepared(b)), c'.list, e, e);
    LaterByClass(Insert(c1.list, InsertAt(cfg, c, b, probe), Prepared(b)), c'.list, d, d);
    assert InvAt(cfg, c', d, |c'.list|) && OrderAt(Traced(c', e), d, |c'.list|);
  }

  /** The place select_vcmd picks keeps the order. */
  lemma PlaceOrdered(cfg: Config, c: Core, c1: Core, b: Buf, probe: Probe, e: nat, d: nat, l: nat)
    requires Accepts(cfg, c, b, probe) && c1 == BeforeInsert(cfg, c, b, probe)
    requires InvAt(cfg, c1, d, l) && OrderAt(Traced(c1, e), d, l) && (Preempts(cfg, c, b, probe) ==> !c1.working)
    requires SameQueue(c.list, c1.list) && forall i :: 0 <= i < |c.list| ==> c.list[i].stamp < b.stamp
    requires b.prio == High && TakesTail(cfg, c, probe) ==> AllHigh(c1.list, e)
    ensures Ordered(Insert(c1.list, InsertAt(cfg, c, b, probe), Prepared(b)), e)
    ensures ByClass(Insert(c1.list, InsertAt(cfg, c, b, probe), Prepared(b)), d)
  {
    var p := InsertAt(cfg, c, b, probe);
    assert forall i :: 0 <= i < |c.list| ==> SameWork(c.list[i], c1.list[i]);
    if Preempts(cfg, c, b, probe) {
      FirstUndoneNormalAt(c1.list, 0, d, l);
      TailOfNormals(c1.list, p, e);
    }
    InsertOrdered(c1.list, p, b, e);
    InsertByClass(c1.list, p, b, d);
  }

  lemma ReleaseOrdered(cfg: Config, t: Traced, r: nat)
    requires OrderInv(cfg, t) && r < |t.core.list| && t.core.list[r].done
    ensures OrderInv(cfg, Traced(Release(t.core, r), RanAfter(cfg, t, StepRelease(r))))
  {
    var c := t.core;
    var d: nat, l: nat :| InvAt(cfg, c, d, l) && OrderAt(t, d, l);
    ReleaseKeeps(cfg, c, r);
    var d': nat, l': nat :| InvAt(cfg, Release(c, r), d', l');
    ReleaseOrderedAt(t, r, d, l, d', l');
  }

  lemma ReleaseOrderedAt(t: Traced, r: nat, d: nat, l: nat, d': nat, l': nat)
    requires r < d && Pattern(t.core.list, d, l) && OrderAt(t, d, l) && Pattern(Release(t.core, r).list, d', l')
    ensures var c' := Release(t.core, r);
            var ran := t.ran - (|t.core.list| - |c'.list|);
            ran >= 0 && OrderAt(Traced(c', ran), d', l')
  {
    var c, c' := t.core, Release(t.core, r);
    ReleaseSuffix(c, r, d);
    var h := |c'.list| - (|c.list| - d);
    SuffixPattern(c, c', d, l, h, d', l');
    SuffixOrdered(c.list, c'.list, d, h, t.ran);
    SuffixByClass(c.list, c'.list, d, h);
  }

  lemma SuffixByClass(list: seq<Buf>, list': seq<Buf>, d: nat, h: nat)
    requires ByClass(list, d) && d <= |list| && h <= |list'| && list'[h..] == list[d..]
    ensures ByClass(list', h)
  {
    forall i, j | h <= i < j < |list'|
      ensures InClass(list'[i], list'[j])
    {
      assert list'[i] == list'[h..][i - h] == list[d..][i - h];
      assert list'[j] == list'[h..][j - h] == list[d..][j - h];
      assert InClass(list[i - h + d], list[j - h + d]);
    }
  }

  lemma SuffixOrdered(list: seq<Buf>, list': seq<Buf>, d: nat, h: nat, e: nat)
    requires Ordered(list, e) && d <= e && d <= |list| && h <= |list'| && list'[h..] == list[d..]
    ensures Ordered(list', e + h - d)
  {
    forall i, j | e + h - d <= i < j < |list'|
      ensures Before(list'[i], list'[j])
    {
      assert list'[i] == list'[h..][i - h] == list[d..][i - h];
      assert list'[j] == list'[h..][j - h] == list[d..][j - h];
      assert Before(list[i - h + d], list[j - h + d]);
    }
  }

  lemma ResumeOrdered(cfg: Config, t: Traced)
    requires OrderInv(cfg, t)
    ensures OrderInv(cfg, Traced(Resume(cfg, t.core), t.ran))
  {
    var c := t.core;
    var d: nat, l: nat :| InvAt(cfg, c, d, l) && OrderAt(t, d, l);
    if !c.working && FindById(c.list, c.abortedId).Some? {
      ResumeRestarts(cfg, c, FindById(c.list, c.abortedId).value, d);
      var c' := Resume(cfg, c);
      LaterIsOrdered(c.list, c'.list, t.ran, t.ran);
      LaterByClass(c.list, c'.list, d, d);
      assert InvAt(cfg, c', d, |c.list|) && OrderAt(Traced(c', t.ran), d, |c.list|);
    }
  }

  lemma InterruptOrdered(cfg: Config, t: Traced, irq: Irq, rep: Report, swAbort: bool)
    requires OrderInv(cfg, t) && Credible(cfg, t.core, irq, rep) && Honest(cfg, t, StepIsr(irq, rep, swAbort))
    requires irq != IrqReset || Ignored(cfg, t.core, rep)
    ensures var c' := Isr(cfg, t.core, irq, rep, swAbort);
            OrderInv(cfg, Traced(c', Max(t.ran, DoneCount(c'.list))))
  {
    var d: nat, l: nat :| InvAt(cfg, t.core, d, l) && OrderAt(t, d, l);
    var c' := Isr(cfg, t.core, irq, rep, swAbort);
    if irq == IrqReset {
      DoneCountIs(c'.list, d, l);
    } else {
      var d', l' := IsrOrdered(cfg, t, irq, rep, swAbort, d, l);
      DoneCountIs(c'.list, d', l');
    }
  }

  /** A reset runs again what the driver had not seen finished, so the order holds afterwards iff no
      high-priority buffer was queued at the tail behind normal ones that were executed but not yet
      reported. */
  lemma ResetOrdered(cfg: Config, t: Traced, rep: Report, swAbort: bool)
    requires OrderInv(cfg, t) && !Ignored(cfg, t.core, rep)
    ensures var c' := Isr(cfg, t.core, IrqReset, rep, swAbort);
            && (Ordered(c'.list, DoneCount(c'.list)) <==> NoneOvertaken(t.core.list, DoneCount(t.core.list), t.ran))
            && (OrderInv(cfg, Traced(c', DoneCount(c'.list))) <==> Ordered(c'.list, DoneCount(c'.list)))
  {
    var c := t.core;
    var d: nat, l: nat :| InvAt(cfg, c, d, l) && OrderAt(t, d, l);
    DoneCountIs(c.list, d, l);
    ResetRecovers(cfg, c, d, l);
    var c' := Isr(cfg, c, IrqReset, rep, swAbort);
    assert c' == Recover(cfg, c.(working := false), FirstUndone(c.list, 0));
    DoneCountIs(c'.list, d, |c.list|);
    OrderedFrom(c.list, d, t.ran);
    hide Isr, Recover, Before, Recovered, SameQueue;
    LaterByClass(c.list, c'.list, d, d);
    if Ordered(c.list, d) {
      LaterIsOrdered(c.list, c'.list, d, d);
      assert InvAt(cfg, c', d, |c.list|) && OrderAt(Traced(c', d), d, |c.list|);
    }
    if Ordered(c'.list, d) {
      SameQueueBack(c.list, c'.list);
      LaterIsOrdered(c'.list, c.list, d, d);
    }
  }

  lemma SameQueueBack(list: seq<Buf>, list': seq<Buf>)
    requires SameQueue(list, list')
    ensures SameQueue(list', list)
  {
    forall i | 0 <= i < |list|
      ensures SameWork(list'[i], list[i])
    {
      assert SameWork(list[i], list'[i]);
    }
  }

  // ---------------------------------------------------------------- every run

  /** Driver steps interleaved with progress of the hardware. */
  datatype Event = Drive(step: Step) | Execute(ran: nat)

  /** A driver step from an honest environment, or the hardware getting further along its chain. */
  predicate Happens(cfg: Config, t: Traced, ev: Event) {
    match ev
    case Drive(s) => Enabled(cfg, t.core, s) && Honest(cfg, t, s)
    case Execute(ran) => t.core.working && t.ran <= ran <= |t.core.list|
  }

  /** The two events that break the order: a high-priority buffer queued at the tail behind a normal
      one still to be executed, and a reset that runs a normal buffer again before a high one behind it. */
  predicate Harmless(cfg: Config, t: Traced, ev: Event) {
    match ev
    case Drive(StepSubmit(b, probe)) => !GoesBehindNormal(cfg, t, b, probe)
    case Drive(StepIsr(irq, rep, _)) =>
      irq == IrqReset && !Ignored(cfg, t.core, rep) ==> NoneOvertaken(t.core.list, DoneCount(t.core.list), t.ran)
    case _ => true
  }

  function After(cfg: Config, t: Traced, ev: Event): Traced
    requires Happens(cfg, t, ev)
  {
    match ev
    case Drive(s) => Traced(Next(cfg, t.core, s), RanAfter(cfg, t, s))
    case Execute(ran) => t.(ran := ran)
  }

  /** Each event keeps the unexecuted buffers in priority order iff it is harmless. */
  lemma EventOrdered(cfg: Config, t: Traced, ev: Event)
    requires OrderInv(cfg, t) && Happens(cfg, t, ev)
    ensures var t' := After(cfg, t, ev);
            && (Ordered(t'.core.list, t'.ran) <==> Harmless(cfg, t, ev))
            && (Harmless(cfg, t, ev) ==> OrderInv(cfg, t'))
  {
    match ev
    case Drive(StepSubmit(b, probe)) => SubmitOrdered(cfg, t, b, probe);
    case Drive(StepIsr(irq, rep, swAbort)) =>
      if irq == IrqReset && !Ignored(cfg, t.core, rep) {
        ResetOrdered(cfg, t, rep, swAbort);
      } else {
        InterruptOrdered(cfg, t, irq, rep, swAbort);
      }
    case Drive(StepRelease(r)) => ReleaseOrdered(cfg, t, r);
    case Drive(StepSuspend(rep)) => SuspendOrdered(cfg, t, rep);
    case Drive(StepResume) => ResumeOrdered(cfg, t);
    case Execute(ran) =>
      var d: nat, l: nat :| InvAt(cfg, t.core, d, l) && OrderAt(t, d, l);
      assert OrderAt(t.(ran := ran), d, l);
  }

  lemma SuspendOrdered(cfg: Config, t: Traced, rep: Report)
    requires OrderInv(cfg, t) && Enabled(cfg, t.core, StepSuspend(rep)) && Honest(cfg, t, StepSuspend(rep))
    ensures OrderInv(cfg, Traced(Suspend(cfg, t.core, rep), RanAfter(cfg, t, StepSuspend(rep))))
  {
    if t.core.working {
      InterruptOrdered(cfg, t, IrqAbort, rep, true);
    } else {
      var d: nat, l: nat :| InvAt(cfg, t.core, d, l) && OrderAt(t, d, l);
      DoneCountIs(t.core.list, d, l);
    }
  }

  predicate AllHappen(cfg: Config, t: Traced, evs: seq<Event>)
    decreases |evs|
  {
    evs != [] ==> Happens(cfg, t, evs[0]) && AllHappen(cfg, After(cfg, t, evs[0]), evs[1..])
  }

  predicate AllHarmless(cfg: Config, t: Traced, evs: seq<Event>)
    requires AllHappen(cfg, t, evs)
    decreases |evs|
  {
    evs != [] ==> Harmless(cfg, t, evs[0]) && AllHarmless(cfg, After(cfg, t, evs[0]), evs[1..])
  }

  /** Priority order now and after every event of the run. */
  predicate AlwaysOrdered(cfg: Config, t: Traced, evs: seq<Event>)
    requires AllHappen(cfg, t, evs)
    decreases |evs|
  {
    Ordered(t.core.list, t.ran) && (evs != [] ==> AlwaysOrdered(cfg, After(cfg, t, evs[0]), evs[1..]))
  }

  lemma {:induction false} TraceOrdered(cfg: Config, t: Traced, evs: seq<Event>)
    requires OrderInv(cfg, t) && AllHappen(cfg, t, evs)
    ensures AlwaysOrdered(cfg, t, evs) <==> AllHarmless(cfg, t, evs)
    decreases |evs|
  {
    if evs != [] {
      EventOrdered(cfg, t, evs[0]);
      if Harmless(cfg, t, evs[0]) {
        TraceOrdered(cfg, After(cfg, t, evs[0]), evs[1..]);
      }
    }
  }

  /** In every run, the buffers the hardware has not executed are in priority order at all times - every
      high-priority one before every normal one, each class in submission order - iff every event of the
      run is harmless. */
  lemma PriorityOrder(cfg: Config, evs: seq<Event>)
    requires AllHappen(cfg, Traced(BOOT, 0), evs)
    ensures AlwaysOrdered(cfg, Traced(BOOT, 0), evs) <==> AllHarmless(cfg, Traced(BOOT, 0), evs)
  {
    assert InvAt(cfg, BOOT, 0, 0) && OrderAt(Traced(BOOT, 0), 0, 0);
    TraceOrdered(cfg, Traced(BOOT, 0), evs);
  }

  // ---------------------------------------------------------------- an instance

  function Sample(id: nat, prio: Priority): Buf {
    var jmp := Jmp(JMP_OPCODE, false, true, 0, 0, 0, 0);
    Buf(id, id * 8192, 64, 8, 1000, prio, 1, id, false, false, false, StatusOk, false, jmp)
  }

  /** A core that was stopped behind its first buffer, with a normal one left: its ready count is zero,
      so an executed count of zero reads as having caught up, and a high-priority buffer is queued behind
      the normal one. */
  lemma StoppedCoreOvertakes(cfg: Config) returns (t: Traced, ev: Event)
    ensures OrderInv(cfg, t) && Happens(cfg, t, ev) && !t.core.working
    ensures ev.Drive? && ev.step.StepSubmit? && ev.step.b.prio == High && ev.step.probe.exeCount == 0
    ensures var t' := After(cfg, t, ev);
            t'.core.working && |t'.core.list| == 3 && !Ordered(t'.core.list, t'.ran)
  {
    var n1, n2, h := Sample(1, Normal).(linked := true, done := true), Sample(2, Normal), Sample(3, High);
    var c := Core([n1, n2], 0, 0, false, 1, Regs(8192, 8, 1, 2), 0);
    var probe := Probe(0, 0, Report(0, 0));
    t, ev := Traced(c, 1), Drive(StepSubmit(h, probe));
    assert Differ(n1, n2);
    assert InvAt(cfg, c, 1, 1) && OrderAt(t, 1, 1);
    assert GoesBehindNormal(cfg, t, h, probe) by {
      assert c.list[1].prio == Normal;
    }
    EventOrdered(cfg, t, ev);
    var d, l := SubmitQueues(cfg, c, h, probe);
  }

  /** Three normal buffers of a running core, none executed since it was started. */
  function Three(): Traced {
    var jumps := (id: nat) => Jmp(JMP_OPCODE, true, true, 0, 8, id * 8192, id);
    var n1, n2 := Sample(1, Normal).(jmp := jumps(2)), Sample(2, Normal).(jmp := jumps(3));
    var list := [n1.(linked := true), n2.(linked := true), Sample(3, Normal).(linked := true)];
    Traced(Core(list, 3, 0, true, 0, Regs(8192, 8, 1, 3), 0), 0)
  }

  lemma ThreeIsOrdered(cfg: Config)
    ensures InvAt(cfg, Three().core, 0, 3) && OrderAt(Three(), 0, 3)
  {
    var list := Three().core.list;
    assert Differ(list[0], list[1]) && Differ(list[0], list[2]) && Differ(list[1], list[2]);
  }

  lemma RestartedByBusErr(cfg: Config, t: Traced, rep: Report)
    requires cfg.newHw && InvAt(cfg, t.core, 0, 3) && |t.core.list| == 3 && t.ran == 0
    requires rep.id == t.core.list[0].id && FindById(t.core.list, rep.id) == Some(0)
    ensures Credible(cfg, t.core, IrqBusErr, rep) && HonestReport(cfg, t, IrqBusErr, rep)
    ensures var c' := Isr(cfg, t.core, IrqBusErr, rep, false);
            && Recovered(t.core, c', 1) && InvAt(cfg, c', 1, 3) && DoneCount(c'.list) == 1
  {
    var c := t.core;
    assert c.list[0].id < TOTAL_DISCRETE_CMDBUF_NUM;
    ErrorRecovers(cfg, Stopped(cfg, c, IrqBusErr, rep), IrqBusErr, 0, 0, 3);
    SwAbortOnlyForAbort(cfg, Stopped(cfg, c, IrqBusErr, rep), IrqBusErr, 0, false);
    DoneCountIs(Isr(cfg, c, IrqBusErr, rep, false).list, 1, 3);
  }

  lemma OvertakesRestarted(cfg: Config, list: seq<Buf>, t: Traced, h: Buf, probe: Probe)
    requires cfg.newHw && OrderInv(cfg, t) && InvAt(cfg, t.core, 1, 3) && t.core.working && t.ran == 1
    requires |list| == 3 && t.core.rdy == 2 && SameQueue(list, t.core.list) && list[1].prio == Normal
    requires h == Sample(4, High) && probe.exeCount == 1
    requires forall i :: 0 <= i < 3 ==> list[i].id == i + 1 && list[i].addr == (i + 1) * 8192 && list[i].stamp == i + 1
    ensures Happens(cfg, t, Drive(StepSubmit(h, probe)))
    ensures var t' := After(cfg, t, Drive(StepSubmit(h, probe)));
            |t'.core.list| == 4 && !Ordered(t'.core.list, t'.ran)
  {
    assert forall i :: 0 <= i < 3 ==> SameWork(list[i], t.core.list[i]);
    assert t.core.list[1].prio == Normal;
    assert GoesBehindNormal(cfg, t, h, probe);
    EventOrdered(cfg, t, Drive(StepSubmit(h, probe)));
    assert Inv(cfg, t.core);
    var d, l := SubmitQueues(cfg, t.core, h, probe);
  }

  /** A core restarted by an error: a bus error finishes the first of three normal buffers and the other
      two are counted anew, but the executed count, still 1 from earlier work, is not cleared. With one
      added to it, it reads as both having been executed, and a high-priority buffer goes behind them. */
  lemma RestartedCoreOvertakes(cfg: Config) returns (bus: Event, submit: Event)
    requires cfg.newHw
    ensures OrderInv(cfg, Three()) && Happens(cfg, Three(), bus)
    ensures bus.Drive? && bus.step.StepIsr? && bus.step.irq == IrqBusErr
    ensures var t := After(cfg, Three(), bus);
            && OrderInv(cfg, t) && t.core.working && t.ran == 1 && t.core.rdy == 2 && Happens(cfg, t, submit)
            && submit.Drive? && submit.step.StepSubmit?
            && submit.step.b.prio == High && submit.step.probe.exeCount == 1
            && var t' := After(cfg, t, submit);
               |t'.core.list| == 4 && !Ordered(t'.core.list, t'.ran)
  {
    var t0 := Three();
    var h, probe := Sample(4, High), Probe(1, 2, Report(0, 0));
    var rep := Report(1, 8192);
    bus, submit := Drive(StepIsr(IrqBusErr, rep, false)), Drive(StepSubmit(h, probe));
    ThreeIsOrdered(cfg);
    FoundIs(t0.core.list, 0);
    hide Isr, Submit, Ordered, ByClass, Chain, TailStops, DistinctIds, SameQueue, FindById, BeforeInsert, Before;
    RestartedByBusErr(cfg, t0, rep);
    var t := After(cfg, t0, bus);
    assert InvAt(cfg, t.core, 1, 3) && t.ran == 1 && t.core.rdy == 2 && t.core.working;
    EventOrdered(cfg, t0, bus);
    assert Harmless(cfg, t0, bus);
    hide RanAfter, InvAt, Harmless, Recovered;
    OvertakesRestarted(cfg, t0.core.list, t, h, probe);
  }
}
