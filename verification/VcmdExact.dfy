/** What the engine relies on its environment for, as exact conditions. */
module VcmdExact {
  import opened Wrappers
  import opened JmpWords
  import opened VcmdSpec
  import opened VcmdChain
  import opened VcmdRecovery
  import opened VcmdQueue
  import opened VcmdSafety
  import opened VcmdPower
  import opened VcmdMembership
  import opened VcmdRuns
  import opened VcmdPacing

  // ---------------------------------------------------------------- releasing too early

  lemma {:induction false} KeptSplit(a: seq<Buf>, b: seq<Buf>)
    requires forall x :: x in b ==> !x.needRemove
    ensures Kept(a + b) == Kept(a) + b
    decreases |b|
  {
    if b == [] {
      assert a + b == a;
    } else {
      var k := |b| - 1;
      assert a + b == (a + b[..k]) + [b[k]];
      KeptStep(a + b[..k], b[k]);
      KeptSplit(a, b[..k]);
    }
  }

  lemma DoneAtMost(list: seq<Buf>, h: nat, d': nat, l': nat)
    requires Pattern(list, d', l') && h < |list| && !list[h].done
    requires forall i :: 0 <= i < h ==> list[i].done
    ensures d' == h
  {
    assert h > 0 ==> list[h - 1].done;
  }

  /** The queue after the release of the undone buffer at r, before the tail. */
  lemma EarlyReleaseShape(c: Core, r: nat, d: nat, l: nat)
    requires Pattern(c.list, d, l) && d <= r && r + 1 < |c.list|
    ensures Release(c, r).list == Kept(c.list[..d]) + (c.list[d..r] + c.list[r + 1..])
    ensures forall b :: b in Kept(c.list[..d]) ==> b.done
  {
    hide Release, Kept, Pattern;
    ReleaseRemoves(c, r);
    KeptFrom(c.list[..d]);
    SplitAtDone(c.list, r, d, l);
    KeptSplit(c.list[..d], c.list[d..r]);
    assert Kept(c.list[..d]) + c.list[d..r] + c.list[r + 1..] == Kept(c.list[..d]) + (c.list[d..r] + c.list[r + 1..]);
  }

  lemma SplitAtDone(list: seq<Buf>, r: nat, d: nat, l: nat)
    requires Pattern(list, d, l) && d <= r <= |list|
    ensures list[..r] == list[..d] + list[d..r]
    ensures (forall x :: x in list[..d] ==> x.done) && forall x :: x in list[d..r] ==> !x.needRemove
  {
  }

  lemma EarlyReleaseMiscounts(cfg: Config, c: Core, r: nat, d: nat)
    requires InvAt(cfg, c, d, |c.list|) && c.working && d <= r && r + 1 < |c.list|
    ensures !Inv(cfg, Release(c, r))
  {
    EarlyReleaseShape(c, r, d, |c.list|);
    var head, rest := Kept(c.list[..d]), c.list[d..r] + c.list[r + 1..];
    var c' := Release(c, r);
    var h := |head|;
    assert forall i :: 0 <= i < h ==> c'.list[i] == head[i];
    assert c'.list[h] == rest[0];
    var undone := |c.list| - d;
    assert |c'.list| - h == undone - 1;
    NoWrapToSelf(undone - 1 + c.completed);
    if Inv(cfg, c') {
      var d': nat, l': nat :| InvAt(cfg, c', d', l');
      DoneAtMost(c'.list, h, d', l');
    }
  }

  lemma NoWrapToSelf(x: nat)
    ensures (x + 1) % U32 != x % U32
  {
  }

  /** An idle core has nothing linked that is not done, so a buffer before the tail can simply go. */
  lemma EarlyIdleRelease(cfg: Config, c: Core, r: nat, d: nat)
    requires InvAt(cfg, c, d, d) && !c.working && d <= r && r + 1 < |c.list|
    ensures Inv(cfg, Release(c, r))
  {
    hide Release, Kept;
    EarlyReleaseShape(c, r, d, d);
    ReleaseRemoves(c, r);
    var head, rest := Kept(c.list[..d]), c.list[d..r] + c.list[r + 1..];
    KeptFrom(c.list[..d]);
    WithoutOneDistinct(c.list, r, d);
    TailParts(c.list, r, d);
    hide Chain, TailStops, DistinctIds, Pattern;
    var c' := Release(c, r);
    assert forall i :: 0 <= i < |head| ==> head[i] in c.list[..d];
    ShapeIsInv(cfg, c, c', head, rest, d);
  }

  lemma TailParts(list: seq<Buf>, r: nat, d: nat)
    requires d <= r < |list|
    ensures forall x :: x in list[d..r] + list[r + 1..] ==> x in list[d..]
  {
    forall x | x in list[d..r] + list[r + 1..]
      ensures x in list[d..]
    {
      if x in list[d..r] {
        var k :| d <= k < r && list[k] == x;
        assert list[d..][k - d] == x;
      } else {
        var k :| r + 1 <= k < |list| && list[k] == x;
        assert list[d..][k - d] == x;
      }
    }
  }

  lemma WithoutOneDistinct(list: seq<Buf>, r: nat, d: nat)
    requires DistinctIds(list) && d <= r < |list|
    ensures DistinctIds(Kept(list[..d]) + (list[d..r] + list[r + 1..]))
  {
    var rest := list[..r] + list[r + 1..];
    assert |rest| == |list| - 1;
    forall i, j | 0 <= i < j < |rest|
      ensures Differ(rest[i], rest[j])
    {
      var i', j' := if i < r then i else i + 1, if j < r then j else j + 1;
      assert Differ(list[i'], list[j']);
    }
    assert rest[..d] == list[..d] && rest[d..] == list[d..r] + list[r + 1..];
    HeadAndTailDistinct(rest, d);
  }

  lemma ShapeIsInv(cfg: Config, c: Core, c': Core, head: seq<Buf>, rest: seq<Buf>, d: nat)
    requires InvAt(cfg, c, d, d) && !c.working && c' == c.(list := head + rest) && DistinctIds(c'.list)
    requires rest != [] && c.list != [] && rest[|rest| - 1] == c.list[|c.list| - 1]
    requires forall i :: 0 <= i < |head| ==> head[i] in c.list[..d]
    requires forall i :: 0 <= i < |rest| ==> rest[i] in c.list[d..]
    ensures Inv(cfg, c')
  {
    var h := |head|;
    assert forall i :: 0 <= i < |c'.list| ==> c'.list[i] == if i < h then head[i] else rest[i - h];
    assert forall b :: b in c.list[..d] ==> b.done && b.linked;
    assert forall b :: b in c.list[d..] ==> !b.done && !b.linked && !b.needRemove && b.id != c.abortedId;
    assert Pattern(c'.list, h, h);
    assert InvAt(cfg, c', h, h);
  }

  /** A client may release a buffer iff the buffer is done, or the core is idle and the buffer is not the
      tail. On a working core releasing one the hardware still has to reach breaks the chain's
      bookkeeping, whichever one it is; on any core an undone tail stays queued, marked for removal. */
  lemma ReleaseIsExact(cfg: Config, c: Core, r: nat)
    requires Inv(cfg, c) && r < |c.list|
    ensures Inv(cfg, Release(c, r)) <==> c.list[r].done || (!c.working && r + 1 < |c.list|)
  {
    var d, l := SoundOf(cfg, c);
    if c.list[r].done {
      ReleaseKeeps(cfg, c, r);
    } else if r + 1 == |c.list| {
      ReleaseRemoves(c, r);
      var c' := Release(c, r);
      var last := c'.list[|c'.list| - 1];
      assert last.needRemove && !last.done;
    } else if c.working {
      EarlyReleaseMiscounts(cfg, c, r, d);
    } else {
      EarlyIdleRelease(cfg, c, r, d);
    }
  }

  // ---------------------------------------------------------------- a JMP that is not closed

  /** Whether the hardware, at the tail, is told to go on. */
  predicate TailRdy(list: seq<Buf>) {
    list != [] && list[|list| - 1].jmp.rdy
  }

  lemma {:induction false} LinkLoopKeepsTail(cfg: Config, c: Core, i: nat)
    ensures TailRdy(LinkLoop(cfg, c, i).list) <==> TailRdy(c.list)
    decreases |c.list| - i
  {
    if i + 1 < |c.list| {
      LinkLoopKeepsTail(cfg, LinkStep(cfg, c, i), i + 1);
    }
  }

  lemma LinkAndRunKeepsTail(cfg: Config, c: Core, p: nat)
    requires p < |c.list|
    ensures TailRdy(LinkAndRun(cfg, c, p).list) <==> TailRdy(c.list)
  {
    hide LinkLoop;
    var k := LastLinked(c.list, p);
    LinkLoopKeepsTail(cfg, LinkFirst(c, k), k);
    StartSame(Link(cfg, c, k), FirstUndone(Link(cfg, c, k).list, k));
  }

  /** After a submission the hardware stops at the tail iff the new buffer's JMP was closed or another
      buffer stands behind it: linking rewrites every JMP but the last. In a buffer that is too small the
      driver overwrites the JMP it has tested (VcmdMemory.DumpHitsOpcode). */
  lemma ClosedJmpIsExact(cfg: Config, c: Core, b: Buf, probe: Probe)
    requires Inv(cfg, c) && Accepts(cfg, c, b, probe) && SizeFits(cfg, b.size)
    requires Preempts(cfg, c, b, probe) && c.working ==> Credible(cfg, c, IrqAbort, probe.abort)
    ensures TailStops(Submit(cfg, c, b, probe).list) <==>
              !b.jmp.rdy || InsertAt(cfg, c, b, probe) < |BeforeInsert(cfg, c, b, probe).list|
  {
    hide Isr, Credible, Chain, DistinctIds, Pattern, SameQueue, DoneGrows, LinkAndRun;
    var c1, p := BeforeInsert(cfg, c, b, probe), InsertAt(cfg, c, b, probe);
    if Preempts(cfg, c, b, probe) && c.working {
      IsrKeeps(cfg, c, IrqAbort, probe.abort, true);
    }
    var d, l := SoundOf(cfg, c1);
    hide BeforeInsert, InsertAt;
    LinkAndRunKeepsTail(cfg, c1.(list := Insert(c1.list, p, Prepared(b))), p);
  }

  // ---------------------------------------------------------------- stale reports

  function Finished(id: nat, addr: nat): Buf {
    var jmp := Jmp(JMP_OPCODE, false, true, 0, 0, 0, 0);
    Buf(id, addr, 64, 8, 1000, Normal, 1, id, true, true, false, StatusOk, false, jmp)
  }

  /** Two finished buffers and a bus error that names the first of them: the driver starts the
      hardware on finished work. */
  lemma StaleReportRestartsFinishedWork(cfg: Config) returns (c: Core)
    requires cfg.newHw
    ensures InvAt(cfg, c, 2, 2) && c.working && |c.list| == 2
    ensures Isr(cfg, c, IrqBusErr, Report(1, 8192), false).rdy == 1
    ensures !HandsBack(c, Isr(cfg, c, IrqBusErr, Report(1, 8192), false))
  {
    c := Core([Finished(1, 8192), Finished(2, 16384)], 2, 0, true, 0, Regs(8192, 8, 1, 2), 2);
    var rep := Report(1, 8192);
    var c0 := Stopped(cfg, c, IrqBusErr, rep);
    assert Differ(c.list[0], c.list[1]);
    FoundIs(c.list, 0);
    RecoveryIsExact(cfg, c, IrqBusErr, rep, false, 2);
    StaleError(cfg, c0, IrqBusErr, 0, 2);
  }

  // ---------------------------------------------------------------- done only grows

  /** A buffer that is done stays done as long as it is queued. */
  predicate StaysDone(list: seq<Buf>, list': seq<Buf>) {
    forall i, j :: 0 <= i < |list| && 0 <= j < |list'| && list[i].id == list'[j].id && list[i].done ==> list'[j].done
  }

  lemma SamePlaceStaysDone(list: seq<Buf>, list': seq<Buf>)
    requires DistinctIds(list) && SameQueue(list, list') && DoneGrows(list, list')
    ensures StaysDone(list, list')
  {
    forall i, j | 0 <= i < |list| && 0 <= j < |list'| && list[i].id == list'[j].id
      ensures i == j
    {
      assert SameWork(list[j], list'[j]);
      if i != j {
        OthersDiffer(list, i, j);
      }
    }
  }

  lemma SubmitStaysDone(cfg: Config, c: Core, b: Buf, probe: Probe)
    requires Inv(cfg, c) && CanSubmit(cfg, c, b, probe) && Accepts(cfg, c, b, probe)
    ensures StaysDone(c.list, Submit(cfg, c, b, probe).list)
  {
    var d, l := SubmitQueues(cfg, c, b, probe);
    var d0, l0 := PlaceForSubmit(cfg, c, b, probe);
    var c1, c' := BeforeInsert(cfg, c, b, probe), Submit(cfg, c, b, probe);
    var p := InsertAt(cfg, c, b, probe);
    var mid := Insert(c1.list, p, Prepared(b));
    PatternUnique(c1.list, d, l, d0, l0);
    forall i, j | 0 <= i < |c.list| && 0 <= j < |c'.list| && c.list[i].id == c'.list[j].id && c.list[i].done
      ensures c'.list[j].done
    {
      assert SameWork(mid[j], c'.list[j]) && SameWork(c.list[i], c1.list[i]);
      assert c1.list[i].done && i < d <= p;
      assert mid[i] == c1.list[i] && SameWork(mid[i], c'.list[i]);
      if i != j {
        OthersDiffer(c'.list, i, j);
      }
    }
  }

  lemma ReleaseStaysDone(cfg: Config, c: Core, r: nat)
    requires Inv(cfg, c) && r < |c.list| && c.list[r].done
    ensures StaysDone(c.list, Release(c, r).list)
  {
    var d, l := SoundOf(cfg, c);
    ReleaseSuffix(c, r, d);
    var list' := Release(c, r).list;
    forall i, j | 0 <= i < |c.list| && 0 <= j < |list'| && c.list[i].id == list'[j].id && c.list[i].done
      ensures list'[j].done
    {
      assert list'[j] in list';
      var y :| y in c.list && list'[j] == y.(needRemove := list'[j].needRemove);
      var k :| 0 <= k < |c.list| && c.list[k] == y;
      if k != i {
        OthersDiffer(c.list, i, k);
      }
    }
  }

  /** Along every step the done flags only grow. */
  lemma DoneOnlyGrows(cfg: Config, c: Core, s: Step)
    requires Inv(cfg, c) && Enabled(cfg, c, s)
    ensures StaysDone(c.list, Next(cfg, c, s).list)
  {
    var d, l := SoundOf(cfg, c);
    match s
    case StepSubmit(b, probe) =>
      if Accepts(cfg, c, b, probe) {
        SubmitStaysDone(cfg, c, b, probe);
      } else {
        SamePlaceStaysDone(c.list, c.list);
      }
    case StepIsr(irq, rep, swAbort) =>
      IsrKeeps(cfg, c, irq, rep, swAbort);
      SamePlaceStaysDone(c.list, Next(cfg, c, s).list);
    case StepRelease(r) => ReleaseStaysDone(cfg, c, r);
    case StepSuspend(rep) =>
      if c.working {
        IsrKeeps(cfg, c, IrqAbort, rep, true);
      }
      SamePlaceStaysDone(c.list, Next(cfg, c, s).list);
    case StepResume =>
      if !c.working && FindById(c.list, c.abortedId).Some? {
        ResumeRestarts(cfg, c, FindById(c.list, c.abortedId).value, d);
      }
      SamePlaceStaysDone(c.list, Next(cfg, c, s).list);
  }
}
