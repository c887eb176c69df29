/** Where the hardware stands between two buffers: at the end of the one it finished last. */
module VcmdWaiting {
  import opened Wrappers
  import opened JmpWords
  import opened VcmdSpec
  import opened VcmdChain
  import opened VcmdRecovery
  import opened VcmdQueue
  import opened VcmdSafety
  import opened VcmdPower
  import opened VcmdMembership
  import opened VcmdRuns
  import opened VcmdPacing

  /** The id of the buffer that was finished last since the hardware was started, as long as it is
      queued. A restart points the hardware at a buffer anew. */
  function LastAfter(c: Core, c': Core, last: Option<nat>): Option<nat> {
    var d := FirstUndone(c'.list, 0);
    if c'.completed == 0 then None
    else if c'.completed > c.completed then if d == 0 then None else Some(c'.list[d - 1].id)
    else if last.Some? && FindById(c'.list, last.value).None? then None
    else last
  }

  /** From the buffer finished last, if it is known, the JMP words lead on to the first undone one. */
  predicate LeadsOn(cfg: Config, c: Core, last: Option<nat>, d: nat) {
    last.Some? ==>
      0 < d <= |c.list| && c.list[d - 1].id == last.value && c.working && Chain(cfg, c.list, d - 1, |c.list|)
  }

  ghost predicate WaitInv(cfg: Config, c: Core, last: Option<nat>) {
    exists d: nat, l: nat :: InvAt(cfg, c, d, l) && LeadsOn(cfg, c, last, d)
  }

  // ---------------------------------------------------------------- restarts

  lemma {:induction false} LoopKeepsCompleted(cfg: Config, c: Core, i: nat)
    ensures LinkLoop(cfg, c, i).completed == c.completed
    decreases |c.list| - i
  {
    if i + 1 < |c.list| {
      LoopKeepsCompleted(cfg, LinkStep(cfg, c, i), i + 1);
    }
  }

  lemma LinkKeepsCompleted(cfg: Config, c: Core, k: nat)
    ensures Link(cfg, c, k).completed == c.completed
  {
    LoopKeepsCompleted(cfg, LinkFirst(c, k), k);
  }

  lemma RestartKeepsCompleted(cfg: Config, c: Core, k: nat)
    ensures Restart(cfg, c, k).completed == c.completed
  {
    hide Link;
    LinkKeepsCompleted(cfg, c, k);
  }

  /** Every interrupt that stops or restarts the hardware forgets what had been finished. */
  lemma StopForgets(cfg: Config, c: Core, irq: Irq, rep: Report, swAbort: bool)
    requires c.list != [] && !(cfg.newHw && rep.id >= TOTAL_DISCRETE_CMDBUF_NUM)
    requires irq != IrqJmp && Credible(cfg, c, irq, rep)
    ensures Isr(cfg, c, irq, rep, swAbort).completed == 0
  {
    hide Restart, MarkBack, UnlinkFrom, Current;
    if irq == IrqReset {
      RestartKeepsCompleted(cfg, Delink(c.(working := false), FirstUndone(c.list, 0)), FirstUndone(c.list, 0));
    } else {
      var r, c0 := Locate(cfg, c.list, irq, rep).value, Stopped(cfg, c, irq, rep);
      AtForgets(cfg, c0, irq, r, swAbort);
    }
  }

  lemma AtForgets(cfg: Config, c: Core, irq: Irq, r: nat, swAbort: bool)
    requires r < |c.list|
    ensures IsrAt(cfg, c, irq, r, swAbort).completed == 0
  {
    hide Restart, MarkBack, UnlinkFrom;
    var n := DoneAfter(irq, r);
    var c1 := MarkBack(c, n);
    var c2 := if irq == IrqBusErr then SetStatus(c1, r, StatusBusErr)
              else if irq == IrqCmdErr then SetStatus(c1, r, StatusCmdErr) else c1;
    RestartKeepsCompleted(cfg, Delink(c1, n), n);
    RestartKeepsCompleted(cfg, Delink(c2, n), n);
  }

  // ---------------------------------------------------------------- interrupts

  lemma Forgotten(cfg: Config, c: Core)
    requires Inv(cfg, c)
    ensures WaitInv(cfg, c, None)
  {
    var d: nat, l: nat :| InvAt(cfg, c, d, l);
    assert LeadsOn(cfg, c, None, d);
  }

  /** A JMP interrupt moves on along the chain. */
  lemma JmpLeadsOn(cfg: Config, c: Core, last: Option<nat>, id: nat, d: nat, l: nat)
    requires InvAt(cfg, c, d, l) && LeadsOn(cfg, c, last, d) && c.list != []
    requires Credible(cfg, c, IrqJmp, Report(id, 0)) && (cfg.newHw ==> id < TOTAL_DISCRETE_CMDBUF_NUM)
    ensures var c' := Isr(cfg, c, IrqJmp, Report(id, 0), false);
            if c'.completed > c.completed then
              var d' := FirstUndone(c'.list, 0);
              0 < d' <= |c'.list| && WaitInv(cfg, c', Some(c'.list[d' - 1].id))
            else c' == c
  {
    JmpIs(cfg, c, id);
    hide Isr, Credible;
    if FindById(c.list, id).Some? {
      var n := FindById(c.list, id).value + 1;
      if n > d {
        assert n <= l;
        MarkLeadsOn(cfg, c, n, d, l);
      }
    }
  }

  lemma MarkLeadsOn(cfg: Config, c: Core, n: nat, d: nat, l: nat)
    requires InvAt(cfg, c, d, l) && d < n <= l
    ensures var c' := MarkBack(c, n);
            && c'.completed > c.completed && FirstUndone(c'.list, 0) == n <= |c'.list|
            && WaitInv(cfg, c', Some(c'.list[n - 1].id))
  {
    MarkAt(cfg, c, n, d, l);
    var c' := MarkBack(c, n);
    hide MarkBack;
    FirstUndoneAt(c'.list, 0, n, l);
    assert Chain(cfg, c'.list, n - 1, l) by {
      forall i | n - 1 <= i && i + 1 < l
        ensures Names(cfg, c'.list[i].jmp, c'.list[i + 1])
      {
        assert Names(cfg, c.list[i].jmp, c.list[i + 1]);
      }
    }
    assert InvAt(cfg, c', n, l) && LeadsOn(cfg, c', Some(c'.list[n - 1].id), n);
  }

  // ---------------------------------------------------------------- submission

  lemma SubmitLeadsOn(cfg: Config, c: Core, last: Option<nat>, b: Buf, probe: Probe)
    requires WaitInv(cfg, c, last) && CanSubmit(cfg, c, b, probe) && Accepts(cfg, c, b, probe)
    ensures var c' := Submit(cfg, c, b, probe);
            c'.completed == 0 || (c'.completed == c.completed && WaitInv(cfg, c', last))
  {
    assert Inv(cfg, c);
    var d, l := PlaceForSubmit(cfg, c, b, probe);
    var c1, p := BeforeInsert(cfg, c, b, probe), InsertAt(cfg, c, b, probe);
    var c2 := c1.(list := Insert(c1.list, p, Prepared(b)));
    assert Submit(cfg, c, b, probe) == LinkAndRun(cfg, c2, p);
    hide BeforeInsert, InsertAt, LinkAndRun, Submit, CanSubmit, Accepts, WaitInv, Sound, DoneGrows;
    RunKeepsCompleted(cfg, c2, p);
    if c1.working {
      QueueLeadsOn(cfg, c, c2, last, d);
    }
  }

  lemma QueueLeadsOn(cfg: Config, c: Core, c2: Core, last: Option<nat>, d: nat)
    requires WaitInv(cfg, c, last) && c.working && Pattern(c.list, d, |c.list|)
    requires |c2.list| == |c.list| + 1 && c2 == c.(list := c2.list) && c2.list[..|c.list|] == c.list
    requires Sound(cfg, c2.list, d, |c.list|)
    ensures WaitInv(cfg, LinkAndRun(cfg, c2, |c.list|), last)
  {
    var d0: nat, l0: nat :| InvAt(cfg, c, d0, l0) && LeadsOn(cfg, c, last, d0);
    PatternUnique(c.list, d, |c.list|, d0, l0);
    hide LinkAndRun, Chain, DistinctIds, TailStops, Pattern, LeadsOn;
    LinkAndRunWorking(cfg, c2, |c.list|, d);
    AppendLeadsOn(cfg, c, c2, last, d);
  }

  lemma RunKeepsCompleted(cfg: Config, c: Core, p: nat)
    requires p < |c.list|
    ensures LinkAndRun(cfg, c, p).completed == c.completed
  {
    hide Link;
    LinkKeepsCompleted(cfg, c, LastLinked(c.list, p));
  }

  /** A buffer appended to a running core: the last JMP before it, which may be that of the finished
      buffer the hardware waits at, is made to name it, and no earlier one changes. */
  lemma AppendLeadsOn(cfg: Config, c: Core, c2: Core, last: Option<nat>, d: nat)
    requires InvAt(cfg, c, d, |c.list|) && c.working && LeadsOn(cfg, c, last, d) && c.rdy < U32
    requires |c2.list| == |c.list| + 1 && c2 == c.(list := c2.list) && c2.list[..|c.list|] == c.list
    requires Sound(cfg, c2.list, d, |c.list|)
    requires InvAt(cfg, LinkAndRun(cfg, c2, |c.list|), d, |c2.list|)
    ensures WaitInv(cfg, LinkAndRun(cfg, c2, |c.list|), last)
  {
    var p, c' := |c.list|, LinkAndRun(cfg, c2, |c.list|);
    LastLinkedAt(c2.list, p, p);
    LinkFromLinked(cfg, c2, p - 1, d, p);
    hide Link;
    var c3 := Link(cfg, c2, p - 1);
    assert c'.list == c3.list && c'.working;
    if last.Some? {
      AppendedChain(cfg, c.list, c2.list, c3.list, d);
      assert c'.list[d - 1].id == last.value;
    }
    assert LeadsOn(cfg, c', last, d);
  }

  lemma AppendedChain(cfg: Config, list: seq<Buf>, list2: seq<Buf>, list3: seq<Buf>, d: nat)
    requires 0 < d <= |list| && |list2| == |list| + 1 && list2[..|list|] == list && Chain(cfg, list, d - 1, |list|)
    requires Relinked(cfg, list2, list3, Max(d - 1, |list| - 1), |list|)
    ensures |list3| == |list2| && list3[d - 1].id == list[d - 1].id && Chain(cfg, list3, d - 1, |list3|)
  {
    var n := |list|;
    assert forall i :: 0 <= i < n ==> list2[i] == list[i];
    forall i | d - 1 <= i && i + 1 < |list3|
      ensures Names(cfg, list3[i].jmp, list3[i + 1])
    {
      assert RelinkedAt(cfg, list2, list3, Max(d - 1, n - 1), n, i);
      assert RelinkedAt(cfg, list2, list3, Max(d - 1, n - 1), n, i + 1);
      assert i + 1 < n ==> Names(cfg, list[i].jmp, list[i + 1]);
    }
    assert RelinkedAt(cfg, list2, list3, Max(d - 1, n - 1), n, d - 1);
  }

  // ---------------------------------------------------------------- release

  /** A release takes done buffers only. Unless it takes the one before the first undone buffer, that one
      is still in front of it. */
  lemma ReleaseLeadsOn(cfg: Config, c: Core, last: Option<nat>, r: nat)
    requires WaitInv(cfg, c, last) && r < |c.list| && c.list[r].done
    ensures var c' := Release(c, r);
            && c'.completed == c.completed
            && WaitInv(cfg, c', if last.Some? && FindById(c'.list, last.value).None? then None else last)
  {
    var d: nat, l: nat :| InvAt(cfg, c, d, l) && LeadsOn(cfg, c, last, d);
    ReleaseKeeps(cfg, c, r);
    ReleaseRemoves(c, r);
    var c' := Release(c, r);
    hide Release, FindById, InvAt, LeadsOn, Kept;
    if last.None? || FindById(c'.list, last.value).None? {
      Forgotten(cfg, c');
    } else if r + 1 == d < |c.list| {
      LastIsGone(cfg, c, last, r, d, l);
    } else {
      LastStays(cfg, c, last, r, d, l);
    }
  }

  lemma LastIsGone(cfg: Config, c: Core, last: Option<nat>, r: nat, d: nat, l: nat)
    requires InvAt(cfg, c, d, l) && LeadsOn(cfg, c, last, d) && last.Some? && r + 1 == d < |c.list|
    ensures FindById(Release(c, r).list, last.value) == None
  {
    ReleaseRemoves(c, r);
    hide Release;
    GoneIsNotFound(c.list, r);
  }

  lemma LastStays(cfg: Config, c: Core, last: Option<nat>, r: nat, d: nat, l: nat)
    requires InvAt(cfg, c, d, l) && LeadsOn(cfg, c, last, d) && last.Some? && r < d && !(r + 1 == d < |c.list|)
    requires Inv(cfg, Release(c, r)) && Release(c, r) == c.(list := Release(c, r).list)
    ensures WaitInv(cfg, Release(c, r), last)
  {
    var s := StaysBefore(c, r, d, l);
    var c' := Release(c, r);
    hide Release, Chain;
    var d': nat, l': nat :| InvAt(cfg, c', d', l');
    ShiftedChain(cfg, c, c', last, d, s);
    ShiftedShape(c.list, c'.list, d, l, d', l', s);
    assert LeadsOn(cfg, c', last, d');
  }

  lemma GoneIsNotFound(list: seq<Buf>, r: nat)
    requires DistinctIds(list) && r < |list|
    ensures FindById(Kept(list[..r]) + list[r + 1..], list[r].id) == None
  {
    KeptFrom(list[..r]);
    var rest := Kept(list[..r]) + list[r + 1..];
    forall i | 0 <= i < |rest|
      ensures rest[i].id != list[r].id
    {
      if i < |Kept(list[..r])| {
        assert rest[i] in list[..r];
        var j :| 0 <= j < r && list[j] == rest[i];
        assert Differ(list[j], list[r]);
      } else {
        assert Differ(list[r], list[i - |Kept(list[..r])| + r + 1]);
      }
    }
  }

  /** The buffer at i has moved s places to the front. */
  predicate MovedUp(list: seq<Buf>, list': seq<Buf>, s: nat, i: nat)
    requires i < |list|
  {
    s <= i < |list'| + s && list'[i - s] == list[i].(needRemove := list'[i - s].needRemove)
  }

  /** What stays from the last done buffer on. */
  lemma StaysBefore(c: Core, r: nat, d: nat, l: nat) returns (s: nat)
    requires Pattern(c.list, d, l) && r < d && !(r + 1 == d < |c.list|)
    ensures var list' := Release(c, r).list;
            && s < d && |list'| == |c.list| - s
            && (forall i :: d - 1 <= i < |c.list| ==> MovedUp(c.list, list', s, i))
            && (forall i :: 0 <= i < d - s ==> list'[i].done)
  {
    ReleaseRemoves(c, r);
    KeptFrom(c.list[..r]);
    KeptShort(c.list[..r]);
    AllDone(c.list, d, l);
    KeptAreDone(c.list, Kept(c.list[..r]), r, d);
    hide Release, Kept, Pattern, MovedUp;
    s := StaysBehind(c.list, Kept(c.list[..r]), r, d, l, Release(c, r).list);
  }

  lemma StaysBehind(list: seq<Buf>, head: seq<Buf>, r: nat, d: nat, l: nat, list': seq<Buf>) returns (s: nat)
    requires Pattern(list, d, l) && r < d && !(r + 1 == d < |list|) && |head| <= r
    requires forall i :: 0 <= i < |head| ==> head[i].done
    requires list' == head + (if r + 1 == |list| then [list[r].(needRemove := true)] else list[r + 1..])
    ensures s < d && |list'| == |list| - s
    ensures forall i :: d - 1 <= i < |list| ==> MovedUp(list, list', s, i)
    ensures forall i :: 0 <= i < d - s ==> list'[i].done
  {
    AllDone(list, d, l);
    hide Pattern, MovedUp;
    if r + 1 == |list| {
      s := r - |head|;
      TailBehindHead(list, head, list');
    } else {
      s := r + 1 - |head|;
      BehindHead(list, head, r + 1, list');
      DoneBelow(list, list', s, d, l, |head|);
    }
  }

  lemma AllDone(list: seq<Buf>, d: nat, l: nat)
    requires Pattern(list, d, l)
    ensures d <= |list| && forall i :: 0 <= i < d ==> list[i].done
  {
  }

  lemma TailBehindHead(list: seq<Buf>, head: seq<Buf>, list': seq<Buf>)
    requires |head| < |list| && list[|list| - 1].done && list' == head + [list[|list| - 1].(needRemove := true)]
    requires forall i :: 0 <= i < |head| ==> head[i].done
    ensures var s := |list| - 1 - |head|;
            MovedUp(list, list', s, |list| - 1) && forall i :: 0 <= i < |list'| ==> list'[i].done
  {
  }

  lemma BehindHead(list: seq<Buf>, head: seq<Buf>, n: nat, list': seq<Buf>)
    requires n <= |list| && |head| <= n && list' == head + list[n..]
    ensures var s := n - |head|;
            |list'| == |list| - s && forall i :: n <= i < |list| ==> MovedUp(list, list', s, i)
  {
  }

  lemma DoneBelow(list: seq<Buf>, list': seq<Buf>, s: nat, d: nat, l: nat, h: nat)
    requires Pattern(list, d, l) && |list'| == |list| - s && s <= d && h <= |list'|
    requires forall i :: 0 <= i < h ==> list'[i].done
    requires forall i :: h + s <= i < |list| ==> MovedUp(list, list', s, i)
    ensures forall i :: 0 <= i < d - s ==> list'[i].done
  {
    forall i | h <= i < d - s
      ensures list'[i].done
    {
      assert MovedUp(list, list', s, i + s);
    }
  }

  lemma {:induction false} KeptShort(list: seq<Buf>)
    ensures |Kept(list)| <= |list|
  {
    if list != [] {
      KeptShort(list[..|list| - 1]);
    }
  }

  lemma ShiftedChain(cfg: Config, c: Core, c': Core, last: Option<nat>, d: nat, s: nat)
    requires LeadsOn(cfg, c, last, d) && last.Some? && s < d && |c'.list| == |c.list| - s && c'.working == c.working
    requires forall i :: d - 1 <= i < |c.list| ==> MovedUp(c.list, c'.list, s, i)
    ensures LeadsOn(cfg, c', last, d - s)
  {
    forall i | d - s - 1 <= i && i + 1 < |c'.list|
      ensures Names(cfg, c'.list[i].jmp, c'.list[i + 1])
    {
      var j := i + s;
      assert Names(cfg, c.list[j].jmp, c.list[j + 1]);
      assert MovedUp(c.list, c'.list, s, j) && MovedUp(c.list, c'.list, s, j + 1);
    }
    assert MovedUp(c.list, c'.list, s, d - 1);
  }

  lemma ShiftedShape(list: seq<Buf>, list': seq<Buf>, d: nat, l: nat, d': nat, l': nat, s: nat)
    requires Pattern(list, d, l) && Pattern(list', d', l') && s < d && |list'| == |list| - s
    requires forall i :: 0 <= i < d - s ==> list'[i].done
    requires forall i :: d - 1 <= i < |list| ==> MovedUp(list, list', s, i)
    ensures d' == d - s
  {
    if d < |list| {
      assert MovedUp(list, list', s, d) && !list[d].done;
    }
    assert list'[d - s - 1].done;
    assert d' < |list'| ==> !list'[d'].done;
  }

  // ---------------------------------------------------------------- every step

  /** A known last finished buffer is queued. */
  lemma LastIsQueued(cfg: Config, c: Core, last: Option<nat>)
    requires WaitInv(cfg, c, last)
    ensures last.Some? ==> FindById(c.list, last.value).Some?
  {
  }

  lemma IdleForgets(cfg: Config, c: Core, last: Option<nat>)
    requires WaitInv(cfg, c, last) && !c.working
    ensures c.completed == 0 && last == None
  {
  }

  lemma SubmitStep(cfg: Config, c: Core, last: Option<nat>, b: Buf, probe: Probe)
    requires WaitInv(cfg, c, last) && CanSubmit(cfg, c, b, probe) && Inv(cfg, Submit(cfg, c, b, probe))
    ensures var c' := Submit(cfg, c, b, probe);
            WaitInv(cfg, c', LastAfter(c, c', last))
  {
    var c' := Submit(cfg, c, b, probe);
    if Accepts(cfg, c, b, probe) {
      SubmitLeadsOn(cfg, c, last, b, probe);
    }
    hide WaitInv, Submit, CanSubmit, Inv, FindById, FirstUndone;
    if c'.completed == 0 {
      Forgotten(cfg, c');
    } else {
      LastIsQueued(cfg, c', last);
    }
  }

  lemma IsrStep(cfg: Config, c: Core, last: Option<nat>, irq: Irq, rep: Report, swAbort: bool)
    requires WaitInv(cfg, c, last) && Credible(cfg, c, irq, rep) && Inv(cfg, Isr(cfg, c, irq, rep, swAbort))
    ensures var c' := Isr(cfg, c, irq, rep, swAbort);
            WaitInv(cfg, c', LastAfter(c, c', last))
  {
    var c' := Isr(cfg, c, irq, rep, swAbort);
    LastIsQueued(cfg, c, last);
    Forgotten(cfg, c');
    var d: nat, l: nat :| InvAt(cfg, c, d, l) && LeadsOn(cfg, c, last, d);
    OtherReportsAlike(cfg, c, irq, rep, swAbort);
    hide WaitInv, Inv, InvAt, LeadsOn, Isr, Credible, FirstUndone, FindById;
    if c.list != [] && !(cfg.newHw && rep.id >= TOTAL_DISCRETE_CMDBUF_NUM) {
      if irq == IrqJmp {
        JmpLeadsOn(cfg, c, last, rep.id, d, l);
      } else {
        StopForgets(cfg, c, irq, rep, swAbort);
      }
    }
  }

  /** Which parts of a report an interrupt looks at. */
  lemma OtherReportsAlike(cfg: Config, c: Core, irq: Irq, rep: Report, swAbort: bool)
    ensures c.list == [] || (cfg.newHw && rep.id >= TOTAL_DISCRETE_CMDBUF_NUM) ==> Isr(cfg, c, irq, rep, swAbort) == c
    ensures irq == IrqJmp ==> Isr(cfg, c, irq, rep, swAbort) == Isr(cfg, c, IrqJmp, Report(rep.id, 0), false)
    ensures irq == IrqJmp ==> (Credible(cfg, c, irq, rep) <==> Credible(cfg, c, IrqJmp, Report(rep.id, 0)))
  {
    hide MarkBack, IsrAt, Recover, FindById;
  }

  lemma ReleaseStep(cfg: Config, c: Core, last: Option<nat>, r: nat)
    requires WaitInv(cfg, c, last) && r < |c.list| && c.list[r].done
    ensures WaitInv(cfg, Release(c, r), LastAfter(c, Release(c, r), last))
  {
    ReleaseLeadsOn(cfg, c, last, r);
    assert Inv(cfg, c);
    ReleaseKeeps(cfg, c, r);
    hide WaitInv, Release, Inv, FirstUndone, FindById;
    Forgotten(cfg, Release(c, r));
  }

  lemma ResumeStep(cfg: Config, c: Core, last: Option<nat>)
    requires WaitInv(cfg, c, last) && Inv(cfg, Resume(cfg, c))
    ensures WaitInv(cfg, Resume(cfg, c), LastAfter(c, Resume(cfg, c), last))
  {
    LastIsQueued(cfg, c, last);
    Forgotten(cfg, Resume(cfg, c));
    hide Link;
    if !c.working {
      IdleForgets(cfg, c, last);
      if FindById(c.list, c.abortedId).Some? {
        LinkKeepsCompleted(cfg, c, FindById(c.list, c.abortedId).value + 1);
      }
    }
  }

  lemma StepLeadsOn(cfg: Config, c: Core, last: Option<nat>, s: Step)
    requires WaitInv(cfg, c, last) && Enabled(cfg, c, s)
    ensures WaitInv(cfg, Next(cfg, c, s), LastAfter(c, Next(cfg, c, s), last))
  {
    assert Inv(cfg, c);
    StepKeeps(cfg, c, s);
    LastIsQueued(cfg, c, last);
    if !c.working {
      IdleForgets(cfg, c, last);
    }
    hide WaitInv, Inv, Isr, Submit, Release, Resume, Credible, CanSubmit, FirstUndone, FindById;
    match s
    case StepSubmit(b, probe) => SubmitStep(cfg, c, last, b, probe);
    case StepIsr(irq, rep, swAbort) => IsrStep(cfg, c, last, irq, rep, swAbort);
    case StepRelease(r) => ReleaseStep(cfg, c, last, r);
    case StepSuspend(rep) =>
      if c.working {
        IsrStep(cfg, c, last, IrqAbort, rep, true);
      }
    case StepResume => ResumeStep(cfg, c, last);
  }

  // ---------------------------------------------------------------- every run

  function LastOfRun(cfg: Config, c: Core, last: Option<nat>, steps: seq<Step>): Option<nat>
    requires RunEnabled(cfg, c, steps)
    decreases |steps|
  {
    if steps == [] then last
    else LastOfRun(cfg, Next(cfg, c, steps[0]), LastAfter(c, Next(cfg, c, steps[0]), last), steps[1..])
  }

  lemma {:induction false} RunLeadsOn(cfg: Config, c: Core, last: Option<nat>, steps: seq<Step>)
    requires WaitInv(cfg, c, last) && RunEnabled(cfg, c, steps)
    ensures WaitInv(cfg, Run(cfg, c, steps), LastOfRun(cfg, c, last, steps))
    decreases |steps|
  {
    if steps != [] {
      hide WaitInv, Next, LastAfter, Enabled;
      StepLeadsOn(cfg, c, last, steps[0]);
      RunLeadsOn(cfg, Next(cfg, c, steps[0]), LastAfter(c, Next(cfg, c, steps[0]), last), steps[1..]);
    }
  }

  /** In every run from boot: the buffer finished last since the hardware was started, while it is queued,
      is the one in front of the first undone buffer, and from it, where the hardware waits once it has
      run out of work, the walk leads on through exactly the undone buffers in list order. */
  lemma WaitingLeadsOn(cfg: Config, steps: seq<Step>, t: seq<nat>)
    requires RunEnabled(cfg, BOOT, steps) && LastOfRun(cfg, BOOT, None, steps).Some? && t != []
    ensures var c, id := Run(cfg, BOOT, steps), LastOfRun(cfg, BOOT, None, steps).value;
            var d := FirstUndone(c.list, 0);
            && c.working && d > 0 && FindById(c.list, id) == Some(d - 1)
            && (t[0] == d - 1 ==> (HwTrace(cfg, c.list, t) <==> t == Indices(d - 1, |c.list|)))
  {
    assert InvAt(cfg, BOOT, 0, 0) && LeadsOn(cfg, BOOT, None, 0);
    RunLeadsOn(cfg, BOOT, None, steps);
    var c, last := Run(cfg, BOOT, steps), LastOfRun(cfg, BOOT, None, steps);
    var d: nat, l: nat :| InvAt(cfg, c, d, l) && LeadsOn(cfg, c, last, d);
    hide Run, LastOfRun, HwTrace;
    FirstUndoneAt(c.list, 0, d, l);
    FoundIs(c.list, d - 1);
    if t[0] == d - 1 {
      ChainIsList(cfg, c.list, d - 1, t);
    }
  }
}
