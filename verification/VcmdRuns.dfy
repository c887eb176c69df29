/** Every run of the engine: the list and the hardware chain are the same queue. */
module VcmdRuns {
  import opened JmpWords
  import opened VcmdSpec
  import opened VcmdChain
  import opened VcmdRecovery
  import opened VcmdQueue
  import opened VcmdSafety
  import opened VcmdPower
  import opened VcmdMembership

  // ---------------------------------------------------------------- what the hardware sees

  /** A walk of the hardware: each JMP has RDY set and names the next buffer visited, the last one
      has RDY clear. Nothing here looks at the order of the list. */
  predicate HwTrace(cfg: Config, list: seq<Buf>, t: seq<nat>) {
    && t != []
    && (forall k :: 0 <= k < |t| ==> t[k] < |list|)
    && (forall k :: 0 <= k < |t| - 1 ==> Hop(cfg, list, t, k))
    && !list[t[|t| - 1]].jmp.rdy
  }

  predicate Hop(cfg: Config, list: seq<Buf>, t: seq<nat>, k: nat)
    requires k + 1 < |t| && t[k] < |list| && t[k + 1] < |list|
  {
    Names(cfg, list[t[k]].jmp, list[t[k + 1]])
  }

  function Indices(d: nat, n: nat): (t: seq<nat>)
    requires d <= n
    ensures |t| == n - d && forall k :: 0 <= k < |t| ==> t[k] == d + k
  {
    seq(n - d, k requires 0 <= k => d + k)
  }

  lemma OthersDiffer(list: seq<Buf>, i: nat, j: nat)
    requires DistinctIds(list) && i < |list| && j < |list| && i != j
    ensures Differ(list[i], list[j])
  {
    if j < i {
      assert Differ(list[j], list[i]);
    }
  }

  lemma {:induction false} TraceFollowsList(cfg: Config, list: seq<Buf>, d: nat, t: seq<nat>, k: nat)
    requires Chain(cfg, list, d, |list|) && TailStops(list) && DistinctIds(list)
    requires HwTrace(cfg, list, t) && t[0] == d && k < |t|
    ensures t[k] == d + k
  {
    if k > 0 {
      TraceFollowsList(cfg, list, d, t, k - 1);
      var i := d + k - 1;
      assert t[k - 1] == i;
      assert Hop(cfg, list, t, k - 1);
      assert Names(cfg, list[i].jmp, list[i + 1]);
      if t[k] != i + 1 {
        OthersDiffer(list, t[k], i + 1);
      }
    }
  }

  lemma ListIsATrace(cfg: Config, list: seq<Buf>, d: nat)
    requires Chain(cfg, list, d, |list|) && TailStops(list) && d < |list|
    ensures HwTrace(cfg, list, Indices(d, |list|))
  {
    var t := Indices(d, |list|);
    forall k | 0 <= k < |t| - 1
      ensures Hop(cfg, list, t, k)
    {
      assert Names(cfg, list[d + k].jmp, list[d + k + 1]);
    }
  }

  /** On a working core, following the JMP words from the first undone buffer visits exactly the
      undone buffers, in list order, and stops at the tail: that walk exists and it is the only one. */
  lemma ChainIsList(cfg: Config, list: seq<Buf>, d: nat, t: seq<nat>)
    requires Chain(cfg, list, d, |list|) && TailStops(list) && DistinctIds(list)
    requires t != [] && t[0] == d < |list|
    ensures HwTrace(cfg, list, t) <==> t == Indices(d, |list|)
  {
    ListIsATrace(cfg, list, d);
    if HwTrace(cfg, list, t) {
      forall k | 0 <= k < |t|
        ensures t[k] == d + k
      {
        TraceFollowsList(cfg, list, d, t, k);
      }
      var last := d + |t| - 1;
      assert t[|t| - 1] == last;
      assert last + 1 < |list| ==> Names(cfg, list[last].jmp, list[last + 1]);
    }
  }

  function Skip(i: nat, k: nat): nat {
    if k < i then k else k + 1
  }

  lemma RemovalShape(cfg: Config, c: Core, i: nat)
    requires i < |c.list|
    ensures var list' := DelinkRemove(cfg, c, i).list;
            && |list'| == |c.list| - 1
            && (forall k :: 0 <= k < |list'| ==>
                  && SameWork(c.list[Skip(i, k)], list'[k]) && SameDoneLinked(c.list[Skip(i, k)], list'[k])
                  && (k != i - 1 ==> list'[k] == c.list[Skip(i, k)]))
            && (0 < i < |list'| ==> Names(cfg, list'[i - 1].jmp, list'[i]))
            && (0 < i == |list'| ==> !list'[i - 1].jmp.rdy)
  {
    hide Rejoined;
    RejoinedIs(cfg);
    var list' := DelinkRemove(cfg, c, i).list;
    forall k | 0 <= k < |list'|
      ensures k != i - 1 ==> list'[k] == c.list[Skip(i, k)]
    {
    }
  }

  lemma RejoinedIs(cfg: Config)
    ensures forall j, rest, forceIe {:trigger Rejoined(cfg, j, rest, forceIe)} ::
              && Rejoined(cfg, j, rest, forceIe).opcode == j.opcode
              && (rest == [] ==> !Rejoined(cfg, j, rest, forceIe).rdy)
              && (rest != [] ==> Names(cfg, Rejoined(cfg, j, rest, forceIe), rest[0]))
  {
  }

  predicate SameDoneLinked(a: Buf, b: Buf) {
    a.done == b.done && a.linked == b.linked && a.needRemove == b.needRemove && a.id == b.id && a.addr == b.addr
  }

  lemma RemovalChain(cfg: Config, list: seq<Buf>, list': seq<Buf>, i: nat, d: nat, d': nat)
    requires i < |list| && |list'| == |list| - 1 && d' == (if i < d then d - 1 else d)
    requires Chain(cfg, list, d, |list|) && TailStops(list)
    requires forall k :: 0 <= k < |list'| && k != i - 1 ==> list'[k] == list[Skip(i, k)]
    requires 0 < i < |list'| ==> Names(cfg, list'[i - 1].jmp, list'[i])
    requires 0 < i == |list'| ==> !list'[i - 1].jmp.rdy
    requires forall k :: 0 <= k < |list'| ==> SameWork(list[Skip(i, k)], list'[k])
    ensures Chain(cfg, list', d', |list'|) && TailStops(list')
  {
    forall k | d' <= k && k + 1 < |list'|
      ensures Names(cfg, list'[k].jmp, list'[k + 1])
    {
      if k != i - 1 {
        var m := Skip(i, k);
        assert Names(cfg, list[m].jmp, list[m + 1]);
        assert SameWork(list[m + 1], list'[k + 1]);
      }
    }
  }

  lemma RemovalDistinct(list: seq<Buf>, list': seq<Buf>, i: nat)
    requires i < |list| && |list'| == |list| - 1 && DistinctIds(list)
    requires forall k :: 0 <= k < |list'| ==> SameDoneLinked(list[Skip(i, k)], list'[k])
    ensures DistinctIds(list')
  {
    forall j, k | 0 <= j < k < |list'|
      ensures Differ(list'[j], list'[k])
    {
      OthersDiffer(list, Skip(i, j), Skip(i, k));
    }
  }

  lemma RemovalPattern(list: seq<Buf>, list': seq<Buf>, i: nat, d: nat)
    requires i < |list| && |list'| == |list| - 1 && Pattern(list, d, |list|)
    requires forall k :: 0 <= k < |list'| ==> SameDoneLinked(list[Skip(i, k)], list'[k])
    ensures Pattern(list', if i < d then d - 1 else d, |list'|)
  {
  }

  /** Taking a buffer out of a fully linked chain leaves the chain of the queue without it: the
      hardware then walks exactly the other undone buffers. */
  lemma RemovalRejoins(cfg: Config, c: Core, i: nat, d: nat, t: seq<nat>)
    requires i < |c.list| && Sound(cfg, c.list, d, |c.list|)
    ensures var c' := DelinkRemove(cfg, c, i);
            var d' := if i < d then d - 1 else d;
            && |c'.list| == |c.list| - 1 && Sound(cfg, c'.list, d', |c'.list|)
            && (forall k :: 0 <= k < |c'.list| ==> SameWork(c.list[Skip(i, k)], c'.list[k]))
            && (t != [] && t[0] == d' < |c'.list| ==> (HwTrace(cfg, c'.list, t) <==> t == Indices(d', |c'.list|)))
  {
    var list' := DelinkRemove(cfg, c, i).list;
    var d' := if i < d then d - 1 else d;
    RemovalShape(cfg, c, i);
    hide DelinkRemove, Chain, TailStops, Pattern, DistinctIds, SameDoneLinked, HwTrace;
    RemovalDistinct(c.list, list', i);
    RemovalPattern(c.list, list', i, d);
    RemovalChain(cfg, c.list, list', i, d, d');
    if t != [] && t[0] == d' < |list'| {
      ChainIsList(cfg, list', d', t);
    }
  }

  // ---------------------------------------------------------------- runs

  datatype Step =
    | StepSubmit(b: Buf, probe: Probe)
    | StepIsr(irq: Irq, rep: Report, swAbort: bool)
    | StepRelease(r: nat)
    | StepSuspend(rep: Report)
    | StepResume

  predicate Enabled(cfg: Config, c: Core, s: Step) {
    match s
    case StepSubmit(b, probe) => CanSubmit(cfg, c, b, probe)
    case StepIsr(irq, rep, _) => Credible(cfg, c, irq, rep)
    case StepRelease(r) => r < |c.list| && c.list[r].done
    case StepSuspend(rep) => c.working ==> Credible(cfg, c, IrqAbort, rep)
    case StepResume => true
  }

  function Next(cfg: Config, c: Core, s: Step): Core
    requires Enabled(cfg, c, s)
  {
    match s
    case StepSubmit(b, probe) => Submit(cfg, c, b, probe)
    case StepIsr(irq, rep, swAbort) => Isr(cfg, c, irq, rep, swAbort)
    case StepRelease(r) => Release(c, r)
    case StepSuspend(rep) => Suspend(cfg, c, rep)
    case StepResume => Resume(cfg, c)
  }

  predicate RunEnabled(cfg: Config, c: Core, steps: seq<Step>)
    decreases |steps|
  {
    steps != [] ==> Enabled(cfg, c, steps[0]) && RunEnabled(cfg, Next(cfg, c, steps[0]), steps[1..])
  }

  function Run(cfg: Config, c: Core, steps: seq<Step>): Core
    requires RunEnabled(cfg, c, steps)
    decreases |steps|
  {
    if steps == [] then c else Run(cfg, Next(cfg, c, steps[0]), steps[1..])
  }

  /** The core as hantro_vcmd_subsys_probe leaves it. */
  const BOOT: Core := Core([], 0, 0, false, 0, Regs(0, 0, 0, 0), 0)

  lemma StepKeeps(cfg: Config, c: Core, s: Step)
    requires Inv(cfg, c) && Enabled(cfg, c, s)
    ensures Inv(cfg, Next(cfg, c, s))
  {
    match s
    case StepSubmit(b, probe) => SubmitKeeps(cfg, c, b, probe);
    case StepIsr(irq, rep, swAbort) => IsrKeeps(cfg, c, irq, rep, swAbort);
    case StepRelease(r) => ReleaseKeeps(cfg, c, r);
    case StepSuspend(rep) =>
      if c.working {
        IsrKeeps(cfg, c, IrqAbort, rep, true);
      }
    case StepResume => ResumeKeeps(cfg, c);
  }

  lemma {:induction false} RunKeeps(cfg: Config, c: Core, steps: seq<Step>)
    requires Inv(cfg, c) && RunEnabled(cfg, c, steps)
    ensures Inv(cfg, Run(cfg, c, steps))
    decreases |steps|
  {
    if steps != [] {
      StepKeeps(cfg, c, steps[0]);
      RunKeeps(cfg, Next(cfg, c, steps[0]), steps[1..]);
    }
  }

  /** Sizes stay inside their slots, whatever the hardware reports. */
  lemma StepFits(cfg: Config, c: Core, s: Step)
    requires AllFit(cfg, c.list) && Enabled(cfg, c, s)
    ensures AllFit(cfg, Next(cfg, c, s).list)
  {
    hide AllFit, SameQueue, Isr, Submit, Release, Resume;
    match s
    case StepSubmit(b, probe) => SubmitFits(cfg, c, b, probe);
    case StepIsr(irq, rep, swAbort) =>
      IsrKeepsMembers(cfg, c, irq, rep, swAbort);
      SameQueueFits(cfg, c.list, Isr(cfg, c, irq, rep, swAbort).list);
    case StepRelease(r) => ReleaseFits(cfg, c, r);
    case StepSuspend(rep) =>
      IsrKeepsMembers(cfg, c, IrqAbort, rep, true);
      SameQueueFits(cfg, c.list, Isr(cfg, c, IrqAbort, rep, true).list);
    case StepResume =>
      ResumeKeepsMembers(cfg, c);
      SameQueueFits(cfg, c.list, Resume(cfg, c).list);
  }

  lemma {:induction false} RunFits(cfg: Config, c: Core, steps: seq<Step>)
    requires AllFit(cfg, c.list) && RunEnabled(cfg, c, steps)
    ensures AllFit(cfg, Run(cfg, c, steps).list)
    decreases |steps|
  {
    if steps != [] {
      StepFits(cfg, c, steps[0]);
      RunFits(cfg, Next(cfg, c, steps[0]), steps[1..]);
    }
  }

  /** Safety of every run from boot. The done flags are a prefix of the queue; a working core has a
      ready register equal to its counter, and the counter is, in 32 bits, the undone buffers plus those
      finished since the last start; from the first undone buffer the hardware walks exactly the undone
      ones; and an idle core has nothing linked that is not done, and a zero counter. Every queued
      buffer fits its slot. That the walk is the same when the JMP words are read from one memory which all
      buffers share is VcmdMirror.MemoryWalkIsTheQueue. */
  lemma EveryRunIsSafe(cfg: Config, steps: seq<Step>) returns (d: nat, l: nat)
    requires RunEnabled(cfg, BOOT, steps)
    ensures var c := Run(cfg, BOOT, steps);
            && d <= l <= |c.list| < TOTAL_DISCRETE_CMDBUF_NUM
            && (forall i :: 0 <= i < |c.list| ==> (c.list[i].done <==> i < d) && (c.list[i].linked <==> i < l))
            && (c.working ==>
                  l == |c.list| && c.regs.ready == c.rdy == (l - d + c.completed) % U32
                  && forall t: seq<nat> {:trigger HwTrace(cfg, c.list, t)} :: t != [] && t[0] == d < |c.list| ==>
                       (HwTrace(cfg, c.list, t) <==> t == Indices(d, |c.list|)))
            && (!c.working ==> l == d && c.rdy == 0)
            && AllFit(cfg, c.list)
  {
    var c := Run(cfg, BOOT, steps);
    RunFits(cfg, BOOT, steps);
    assert InvAt(cfg, BOOT, 0, 0);
    RunKeeps(cfg, BOOT, steps);
    d, l := SoundOf(cfg, c);
    QueueIsShort(c.list);
    if c.working && d < |c.list| {
      forall t: seq<nat> | t != [] && t[0] == d
        ensures HwTrace(cfg, c.list, t) <==> t == Indices(d, |c.list|)
      {
        ChainIsList(cfg, c.list, d, t);
      }
    }
  }
}
