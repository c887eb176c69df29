/** Every run in one memory: the driver and its clients write words at addresses, and the JMP words the
    hardware reads there are always those of the queue. */
module VcmdMirror {
  import opened Wrappers
  import opened JmpWords
  import opened VcmdSpec
  import opened VcmdChain
  import opened VcmdRecovery
  import opened VcmdQueue
  import opened VcmdSafety
  import opened VcmdPower
  import opened VcmdMembership
  import opened VcmdRuns
  import opened VcmdMemory
  import opened CmdbufPool

  // ---------------------------------------------------------------- what memory knows nothing of

  predicate SameInMemory(a: Buf, b: Buf) {
    a.id == b.id && a.addr == b.addr && a.size == b.size && a.units == b.units && a.jmp == b.jmp
  }

  predicate AllSameInMemory(list: seq<Buf>, list': seq<Buf>) {
    |list'| == |list| && forall i :: 0 <= i < |list| ==> SameInMemory(list[i], list'[i])
  }

  lemma FlagsAreNotInMemory(cfg: Config, base: nat, m: Memory, list: seq<Buf>, list': seq<Buf>)
    requires Mirrors(cfg, base, m, list) && AllSameInMemory(list, list')
    ensures Mirrors(cfg, base, m, list')
  {
    KeepsDistinct(list, list');
    hide Decode, LenUnits, LoadWords;
    forall i | 0 <= i < |list'|
      ensures Shows(m, list'[i])
    {
      assert Shows(m, list[i]) && SameInMemory(list[i], list'[i]);
    }
  }

  lemma {:induction false} UnlinkingIsNotInMemory(list: seq<Buf>, k: nat)
    ensures AllSameInMemory(list, UnlinkFrom(list, k))
    decreases |list| - k
  {
    if k < |list| && list[k].linked {
      UnlinkingIsNotInMemory(list[k := list[k].(linked := false)], k + 1);
    }
  }

  lemma {:induction false} MarkingIsNotInMemory(c: Core, r: nat)
    requires r <= |c.list|
    ensures AllSameInMemory(c.list, MarkBack(c, r).list)
    decreases r
  {
    if r > 0 && !c.list[r - 1].done {
      var b := c.list[r - 1].(done := true, status := StatusOk);
      MarkingIsNotInMemory(c.(list := c.list[r - 1 := b], completed := c.completed + 1), r - 1);
    }
  }

  // ---------------------------------------------------------------- interrupts

  function RecoverMemory(cfg: Config, m: Memory, c: Core, base: nat): Memory {
    LinkMemory(cfg, m, Delink(c, base), base)
  }

  function IsrAtMemory(cfg: Config, m: Memory, c: Core, irq: Irq, r: nat, swAbort: bool): Memory
    requires r < |c.list|
  {
    if irq == IrqAbort then
      if cfg.encoder && !swAbort then RecoverMemory(cfg, m, MarkBack(c, r + 1), r + 1) else m
    else if irq == IrqTimeout then RecoverMemory(cfg, m, MarkBack(c, r), r)
    else RecoverMemory(cfg, m, Noticed(c, irq, r), r + 1)
  }

  /** The core when an error about the buffer at r has been noted. */
  function Noticed(c: Core, irq: Irq, r: nat): Core
    requires r < |c.list|
  {
    var c' := MarkBack(c, r + 1);
    if irq == IrqBusErr then SetStatus(c', r, StatusBusErr)
    else if irq == IrqCmdErr then SetStatus(c', r, StatusCmdErr) else c'
  }

  /** What an interrupt writes: the JMP words of the buffers it links again, nothing otherwise. */
  function IsrMemory(cfg: Config, m: Memory, c: Core, irq: Irq, rep: Report, swAbort: bool): Memory {
    if c.list == [] || (cfg.newHw && rep.id >= TOTAL_DISCRETE_CMDBUF_NUM) || irq == IrqJmp then m
    else if irq == IrqReset then RecoverMemory(cfg, m, c.(working := false), FirstUndone(c.list, 0))
    else
      match Locate(cfg, c.list, irq, rep)
      case None => m
      case Some(r) => IsrAtMemory(cfg, m, Stopped(cfg, c, irq, rep), irq, r, swAbort)
  }

  lemma RecoverShows(cfg: Config, base: nat, m: Memory, c: Core, k: nat)
    requires Mirrors(cfg, base, m, c.list)
    ensures Mirrors(cfg, base, RecoverMemory(cfg, m, c, k), Recover(cfg, c, k).list)
  {
    UnlinkingIsNotInMemory(c.list, k);
    hide Mirrors, Link, LinkMemory, UnlinkFrom, AllSameInMemory;
    FlagsAreNotInMemory(cfg, base, m, c.list, Delink(c, k).list);
    LinkShows(cfg, base, m, Delink(c, k), k);
    StartSame(Link(cfg, Delink(c, k), k), k);
  }

  lemma NoticedShows(cfg: Config, base: nat, m: Memory, c: Core, irq: Irq, r: nat)
    requires Mirrors(cfg, base, m, c.list) && r < |c.list|
    ensures Mirrors(cfg, base, m, Noticed(c, irq, r).list)
  {
    hide Mirrors, MarkBack;
    MarkingIsNotInMemory(c, r + 1);
    assert forall i :: 0 <= i < |c.list| ==> SameInMemory(c.list[i], MarkBack(c, r + 1).list[i]);
    FlagsAreNotInMemory(cfg, base, m, c.list, Noticed(c, irq, r).list);
  }

  lemma IsrAtShows(cfg: Config, base: nat, m: Memory, c: Core, irq: Irq, r: nat, swAbort: bool)
    requires Mirrors(cfg, base, m, c.list) && r < |c.list|
    ensures Mirrors(cfg, base, IsrAtMemory(cfg, m, c, irq, r, swAbort), IsrAt(cfg, c, irq, r, swAbort).list)
  {
    hide Mirrors, MarkBack, Recover, Restart, Delink, RecoverMemory, AllSameInMemory, Noticed;
    var n := if irq == IrqTimeout then r else r + 1;
    MarkingIsNotInMemory(c, n);
    FlagsAreNotInMemory(cfg, base, m, c.list, MarkBack(c, n).list);
    if irq == IrqAbort && !(cfg.encoder && !swAbort) {
      DelinkShows(cfg, base, m, MarkBack(c, n), n);
    } else if irq == IrqAbort {
      RecoverIsRestart(cfg, MarkBack(c, n), n);
      RecoverShows(cfg, base, m, MarkBack(c, n), n);
    } else if irq == IrqTimeout {
      RecoverShows(cfg, base, m, MarkBack(c, n), n);
    } else {
      NoticedShows(cfg, base, m, c, irq, r);
      NoticedIs(c, irq, r);
      RecoverShows(cfg, base, m, Noticed(c, irq, r), n);
    }
  }

  lemma NoticedIs(c: Core, irq: Irq, r: nat)
    requires r < |c.list|
    ensures var c' := MarkBack(c, r + 1);
            Noticed(c, irq, r) ==
              if irq == IrqBusErr then SetStatus(c', r, StatusBusErr)
              else if irq == IrqCmdErr then SetStatus(c', r, StatusCmdErr) else c'
  {
  }

  lemma RecoverIsRestart(cfg: Config, c: Core, k: nat)
    ensures Recover(cfg, c, k) == Restart(cfg, Delink(c, k), k)
  {
  }

  lemma DelinkShows(cfg: Config, base: nat, m: Memory, c: Core, k: nat)
    requires Mirrors(cfg, base, m, c.list)
    ensures Mirrors(cfg, base, m, Delink(c, k).list)
  {
    UnlinkingIsNotInMemory(c.list, k);
    FlagsAreNotInMemory(cfg, base, m, c.list, Delink(c, k).list);
  }

  /** Any interrupt, with any report, leaves memory and queue in agreement. */
  lemma IsrShows(cfg: Config, base: nat, m: Memory, c: Core, irq: Irq, rep: Report, swAbort: bool)
    requires Mirrors(cfg, base, m, c.list)
    ensures Mirrors(cfg, base, IsrMemory(cfg, m, c, irq, rep, swAbort), Isr(cfg, c, irq, rep, swAbort).list)
  {
    hide Mirrors, MarkBack, Recover, RecoverMemory, IsrAt, IsrAtMemory, AllSameInMemory;
    if c.list != [] && !(cfg.newHw && rep.id >= TOTAL_DISCRETE_CMDBUF_NUM) {
      if irq == IrqReset {
        RecoverShows(cfg, base, m, c.(working := false), FirstUndone(c.list, 0));
      } else if irq == IrqJmp {
        if FindById(c.list, rep.id).Some? {
          var r := FindById(c.list, rep.id).value;
          MarkingIsNotInMemory(c, r + 1);
          FlagsAreNotInMemory(cfg, base, m, c.list, MarkBack(c, r + 1).list);
        }
      } else if Locate(cfg, c.list, irq, rep).Some? {
        IsrAtShows(cfg, base, m, Stopped(cfg, c, irq, rep), irq, Locate(cfg, c.list, irq, rep).value, swAbort);
      }
    }
  }

  // ---------------------------------------------------------------- submission

  /** The client has written the buffer b, and nothing outside its slot. */
  ghost predicate ClientWrote(base: nat, m: Memory, m': Memory, b: Buf) {
    && b.addr == base + b.id * CMDBUF_MAX_SIZE && Shows(m', b)
    && forall a :: !InSlot(b.addr, a) ==> m'(a) == m(a)
  }

  lemma ClientKeepsOthers(cfg: Config, base: nat, m: Memory, m': Memory, list: seq<Buf>, b: Buf)
    requires Mirrors(cfg, base, m, list) && ClientWrote(base, m, m', b) && Fresh(list, b)
    ensures Mirrors(cfg, base, m', list)
  {
    hide Decode, LenUnits;
    forall i | 0 <= i < |list|
      ensures Shows(m', list[i])
    {
      var x := list[i];
      var w := WordsAt(x.addr, x.size);
      assert Shows(m, x) && x.id != b.id;
      SlotsApart(base, x.id, b.id);
      OwnSlot(cfg, x.addr, x.size);
      assert Written(cfg, x.addr, x.size, w) && Written(cfg, x.addr, x.size, w + 4);
      assert Written(cfg, x.addr, x.size, w + 8) && Written(cfg, x.addr, x.size, w + 12);
      LoadsSame(m, m', w);
    }
  }

  lemma InsertShows(cfg: Config, base: nat, m: Memory, list: seq<Buf>, p: nat, b: Buf)
    requires Mirrors(cfg, base, m, list) && p <= |list| && Fresh(list, b) && SizeFits(cfg, b.size)
    requires b.addr == base + b.id * CMDBUF_MAX_SIZE && Shows(m, b)
    ensures Mirrors(cfg, base, m, Insert(list, p, Prepared(b)))
  {
    var list' := Insert(list, p, Prepared(b));
    hide Decode, LenUnits, LoadWords;
    InsertInserts(list, p, Prepared(b));
    InsertedDistinct(list, list', p);
    hide Insert, DistinctIds;
    forall i | 0 <= i < |list'|
      ensures Shows(m, list'[i]) && SizeFits(cfg, list'[i].size)
      ensures list'[i].addr == base + list'[i].id * CMDBUF_MAX_SIZE
    {
      if i != p {
        var j := if i < p then i else i - 1;
        assert list'[i] == list[j] && Shows(m, list[j]);
      }
    }
  }

  /** What a submission writes: the register dumps of its buffer, then the JMP words of whatever it links. */
  function SubmitMemory(cfg: Config, m: Memory, c: Core, b: Buf, probe: Probe, idDump: nat, regDump: nat): Memory {
    if !Accepts(cfg, c, b, probe) then m
    else
      var m1 := if Preempts(cfg, c, b, probe) && c.working then IsrMemory(cfg, m, c, IrqAbort, probe.abort, true) else m;
      var c1, p := BeforeInsert(cfg, c, b, probe), InsertAt(cfg, c, b, probe);
      var c2 := c1.(list := Insert(c1.list, p, Prepared(b)));
      LinkMemory(cfg, FillDumps(m1, cfg, b.addr, b.size, idDump, regDump), c2, LastLinked(c2.list, p))
  }

  /** The abort of a submission links nothing, so it writes nothing. */
  lemma AbortWritesNothing(cfg: Config, m: Memory, c: Core, rep: Report)
    ensures IsrMemory(cfg, m, c, IrqAbort, rep, true) == m
  {
  }

  /** Memory shows the queue with the new buffer in it, before anything is linked. */
  lemma QueuedShows(cfg: Config, base: nat, m: Memory, m': Memory, c: Core, b: Buf, probe: Probe)
    requires Mirrors(cfg, base, m, c.list) && ClientWrote(base, m, m', b)
    requires Fresh(c.list, b) && SizeFits(cfg, b.size)
    ensures Mirrors(cfg, base, m', Insert(BeforeInsert(cfg, c, b, probe).list, InsertAt(cfg, c, b, probe), Prepared(b)))
  {
    ClientKeepsOthers(cfg, base, m, m', c.list, b);
    var c1, p := BeforeInsert(cfg, c, b, probe), InsertAt(cfg, c, b, probe);
    IsrShows(cfg, base, m', c, IrqAbort, probe.abort, true);
    AbortWritesNothing(cfg, m', c, probe.abort);
    IsrKeepsMembers(cfg, c, IrqAbort, probe.abort, true);
    SameRefl(c.list);
    assert Mirrors(cfg, base, m', c1.list) && SameQueue(c.list, c1.list);
    hide Mirrors, Isr, IsrMemory, BeforeInsert, InsertAt, SameQueue, Shows;
    FreshIn(c.list, c1.list, b);
    InsertShows(cfg, base, m', c1.list, p, b);
  }

  lemma SubmitShows(cfg: Config, base: nat, m: Memory, m': Memory, c: Core, b: Buf, probe: Probe,
                    idDump: nat, regDump: nat)
    requires Mirrors(cfg, base, m, c.list) && ClientWrote(base, m, m', b)
    requires Fresh(c.list, b) && SizeFits(cfg, b.size)
    ensures Mirrors(cfg, base, SubmitMemory(cfg, m', c, b, probe, idDump, regDump), Submit(cfg, c, b, probe).list)
  {
    ClientKeepsOthers(cfg, base, m, m', c.list, b);
    if Accepts(cfg, c, b, probe) {
      var c1, p := BeforeInsert(cfg, c, b, probe), InsertAt(cfg, c, b, probe);
      var c2 := c1.(list := Insert(c1.list, p, Prepared(b)));
      AbortWritesNothing(cfg, m', c, probe.abort);
      QueuedShows(cfg, base, m, m', c, b, probe);
      hide Mirrors, Isr, IsrMemory, BeforeInsert, InsertAt, SameQueue, LinkMemory, FillDumps, Link, Shows;
      assert c2.list[p] == Prepared(b);
      DumpsKeepTheChain(cfg, base, m', c2.list, p, idDump, regDump);
      var m2, k := FillDumps(m', cfg, b.addr, b.size, idDump, regDump), LastLinked(c2.list, p);
      LinkShows(cfg, base, m2, c2, k);
      StartSame(Link(cfg, c2, k), FirstUndone(Link(cfg, c2, k).list, k));
    }
  }

  /** On newer hardware an accepted buffer of at least 40 bytes holds, once it is queued and linked, the
      addresses of the core's two register dumps. */
  lemma SubmitPlacesDumps(cfg: Config, base: nat, m: Memory, m': Memory, c: Core, b: Buf, probe: Probe,
                          idDump: nat, regDump: nat)
    requires Mirrors(cfg, base, m, c.list) && ClientWrote(base, m, m', b)
    requires Fresh(c.list, b) && SizeFits(cfg, b.size) && Accepts(cfg, c, b, probe)
    requires cfg.newHw && b.size >= 40 && idDump < U32 * U32 && regDump < U32 * U32
    ensures var w := SubmitMemory(cfg, m', c, b, probe, idDump, regDump);
            LoadAddress(w, b.addr + 4) == idDump && LoadAddress(w, b.addr + b.size / 4 * 4 - 28) == regDump
  {
    var c1, p := BeforeInsert(cfg, c, b, probe), InsertAt(cfg, c, b, probe);
    var c2 := c1.(list := Insert(c1.list, p, Prepared(b)));
    hide SubmitMemory, BeforeInsert, InsertAt, LinkMemory, Insert, Mirrors, FillDumps, ClientWrote, Accepts, Fresh;
    hide LoadAddress, LastLinked, SizeFits;
    QueuedShows(cfg, base, m, m', c, b, probe);
    SubmitLinksLast(cfg, m', c, b, probe, idDump, regDump);
    InsertInserts(c1.list, p, Prepared(b));
    LinkedDumps(cfg, base, m', c2, p, b, idDump, regDump, LastLinked(c2.list, p));
  }

  lemma LinkedDumps(cfg: Config, base: nat, m: Memory, c: Core, p: nat, b: Buf, idDump: nat, regDump: nat, k: nat)
    requires Mirrors(cfg, base, m, c.list) && p < |c.list| && c.list[p] == Prepared(b)
    requires cfg.newHw && b.size >= 40 && idDump < U32 * U32 && regDump < U32 * U32
    ensures var w := LinkMemory(cfg, FillDumps(m, cfg, b.addr, b.size, idDump, regDump), c, k);
            LoadAddress(w, b.addr + 4) == idDump && LoadAddress(w, b.addr + b.size / 4 * 4 - 28) == regDump
  {
    hide LinkMemory, Mirrors, FillDumps, LoadAddress;
    DumpsArePlaced(m, cfg, b.addr, b.size, idDump, regDump);
    DumpWordsStay(cfg, base, m, FillDumps(m, cfg, b.addr, b.size, idDump, regDump), c, p, k);
  }

  lemma SubmitLinksLast(cfg: Config, m: Memory, c: Core, b: Buf, probe: Probe, idDump: nat, regDump: nat)
    requires Accepts(cfg, c, b, probe)
    ensures var c1, p := BeforeInsert(cfg, c, b, probe), InsertAt(cfg, c, b, probe);
            var c2 := c1.(list := Insert(c1.list, p, Prepared(b)));
            SubmitMemory(cfg, m, c, b, probe, idDump, regDump)
            == LinkMemory(cfg, FillDumps(m, cfg, b.addr, b.size, idDump, regDump), c2, LastLinked(c2.list, p))
  {
    AbortWritesNothing(cfg, m, c, probe.abort);
    hide IsrMemory, LinkMemory, FillDumps, BeforeInsert, InsertAt, Accepts, Insert;
  }

  lemma DumpWordsStay(cfg: Config, base: nat, m: Memory, m2: Memory, c: Core, p: nat, k: nat)
    requires Mirrors(cfg, base, m, c.list) && p < |c.list| && cfg.newHw
    ensures var b, w := c.list[p], LinkMemory(cfg, m2, c, k);
            && LoadAddress(w, b.addr + 4) == LoadAddress(m2, b.addr + 4)
            && LoadAddress(w, b.addr + b.size / 4 * 4 - 28) == LoadAddress(m2, b.addr + b.size / 4 * 4 - 28)
  {
    var b := c.list[p];
    forall a | DumpWord(b.addr, b.size, a)
      ensures LinkMemory(cfg, m2, c, k)(a) == m2(a)
    {
      DumpsAreOutside(cfg, base, m, c.list, p, a);
      LinkWritesJumps(cfg, m2, c, k, a);
    }
    var e := WordsAt(b.addr, b.size);
    assert DumpWord(b.addr, b.size, b.addr + 4) && DumpWord(b.addr, b.size, b.addr + 8);
    assert DumpWord(b.addr, b.size, e - 12) && DumpWord(b.addr, b.size, e - 8);
  }

  // ---------------------------------------------------------------- release and resume

  lemma NeedRemoveIsNotInMemory(m: Memory, b: Buf, v: bool)
    requires Shows(m, b)
    ensures Shows(m, b.(needRemove := v))
  {
  }

  lemma OldIsShown(cfg: Config, base: nat, m: Memory, list: seq<Buf>, x: Buf, y: Buf)
    requires Mirrors(cfg, base, m, list) && y in list && x == y.(needRemove := x.needRemove)
    ensures Shows(m, x) && SizeFits(cfg, x.size) && x.addr == base + x.id * CMDBUF_MAX_SIZE
  {
    hide Shows, DistinctIds;
    var j :| 0 <= j < |list| && list[j] == y;
    NeedRemoveIsNotInMemory(m, list[j], x.needRemove);
  }

  lemma ReleaseShows(cfg: Config, base: nat, m: Memory, c: Core, r: nat)
    requires Mirrors(cfg, base, m, c.list) && r < |c.list| && DistinctIds(Release(c, r).list)
    ensures Mirrors(cfg, base, m, Release(c, r).list)
  {
    ReleasedAreOld(c, r);
    var list' := Release(c, r).list;
    hide Release, Shows, DistinctIds;
    forall i | 0 <= i < |list'|
      ensures Shows(m, list'[i]) && SizeFits(cfg, list'[i].size)
      ensures list'[i].addr == base + list'[i].id * CMDBUF_MAX_SIZE
    {
      assert list'[i] in list';
      var y :| y in c.list && list'[i] == y.(needRemove := list'[i].needRemove);
      OldIsShown(cfg, base, m, c.list, list'[i], y);
    }
  }

  function ResumeMemory(cfg: Config, m: Memory, c: Core): Memory {
    if c.working then m
    else match FindById(c.list, c.abortedId)
      case None => m
      case Some(r) => LinkMemory(cfg, m, c, r + 1)
  }

  lemma ResumeShows(cfg: Config, base: nat, m: Memory, c: Core)
    requires Mirrors(cfg, base, m, c.list)
    ensures Mirrors(cfg, base, ResumeMemory(cfg, m, c), Resume(cfg, c).list)
  {
    hide Mirrors, Link, LinkMemory;
    if !c.working && FindById(c.list, c.abortedId).Some? {
      var r := FindById(c.list, c.abortedId).value;
      LinkShows(cfg, base, m, c, r + 1);
      StartSame(Link(cfg, c, r + 1), FirstUndone(Link(cfg, c, r + 1).list, r));
    }
  }

  // ---------------------------------------------------------------- every run

  /** A driver step in memory. Before a submission the client has written its buffer: client is memory
      then. */
  datatype Act = Act(step: Step, client: Memory)

  /** The engine, and the memory it shares with clients and hardware. */
  datatype World = World(core: Core, memory: Memory)

  /** Where the slots and the register dumps of the core are. */
  datatype Layout = Layout(base: nat, idDump: nat, regDump: nat)

  ghost predicate CanAct(cfg: Config, y: Layout, w: World, a: Act) {
    Enabled(cfg, w.core, a.step) && (a.step.StepSubmit? ==> ClientWrote(y.base, w.memory, a.client, a.step.b))
  }

  function Perform(cfg: Config, y: Layout, w: World, a: Act): World
    requires Enabled(cfg, w.core, a.step)
  {
    var m := match a.step
             case StepSubmit(b, probe) => SubmitMemory(cfg, a.client, w.core, b, probe, y.idDump, y.regDump)
             case StepIsr(irq, rep, swAbort) => IsrMemory(cfg, w.memory, w.core, irq, rep, swAbort)
             case StepRelease(_) => w.memory
             case StepSuspend(rep) =>
               if w.core.working then IsrMemory(cfg, w.memory, w.core, IrqAbort, rep, true) else w.memory
             case StepResume => ResumeMemory(cfg, w.memory, w.core);
    World(Next(cfg, w.core, a.step), m)
  }

  ghost predicate AllCanAct(cfg: Config, y: Layout, w: World, acts: seq<Act>)
    decreases |acts|
  {
    acts != [] ==> CanAct(cfg, y, w, acts[0]) && AllCanAct(cfg, y, Perform(cfg, y, w, acts[0]), acts[1..])
  }

  function PerformAll(cfg: Config, y: Layout, w: World, acts: seq<Act>): World
    requires AllCanAct(cfg, y, w, acts)
    decreases |acts|
  {
    if acts == [] then w else PerformAll(cfg, y, Perform(cfg, y, w, acts[0]), acts[1..])
  }

  lemma ActShows(cfg: Config, y: Layout, w: World, a: Act)
    requires Inv(cfg, w.core) && Mirrors(cfg, y.base, w.memory, w.core.list) && CanAct(cfg, y, w, a)
    ensures var w' := Perform(cfg, y, w, a);
            Inv(cfg, w'.core) && Mirrors(cfg, y.base, w'.memory, w'.core.list)
  {
    var c := w.core;
    StepKeeps(cfg, c, a.step);
    hide Mirrors, Isr, IsrMemory, Submit, SubmitMemory, Release, Resume, ResumeMemory, Credible, ClientWrote, InvAt;
    match a.step
    case StepSubmit(b, probe) =>
      SubmitShows(cfg, y.base, w.memory, a.client, c, b, probe, y.idDump, y.regDump);
    case StepIsr(irq, rep, swAbort) => IsrShows(cfg, y.base, w.memory, c, irq, rep, swAbort);
    case StepRelease(r) =>
      InvDistinct(cfg, Release(c, r));
      ReleaseShows(cfg, y.base, w.memory, c, r);
    case StepSuspend(rep) => IsrShows(cfg, y.base, w.memory, c, IrqAbort, rep, true);
    case StepResume => ResumeShows(cfg, y.base, w.memory, c);
  }

  lemma InvDistinct(cfg: Config, c: Core)
    requires Inv(cfg, c)
    ensures DistinctIds(c.list)
  {
  }

  lemma {:induction false} RunShows(cfg: Config, y: Layout, w: World, acts: seq<Act>)
    requires Inv(cfg, w.core) && Mirrors(cfg, y.base, w.memory, w.core.list) && AllCanAct(cfg, y, w, acts)
    ensures var w' := PerformAll(cfg, y, w, acts);
            Inv(cfg, w'.core) && Mirrors(cfg, y.base, w'.memory, w'.core.list)
    decreases |acts|
  {
    if acts != [] {
      hide Inv, Mirrors, Perform;
      ActShows(cfg, y, w, acts[0]);
      RunShows(cfg, y, Perform(cfg, y, w, acts[0]), acts[1..]);
    }
  }

  /** A walk of the hardware, each JMP read from memory where its buffer ends. */
  predicate MemoryTrace(cfg: Config, m: Memory, list: seq<Buf>, t: seq<nat>) {
    && t != []
    && (forall k :: 0 <= k < |t| ==> t[k] < |list|)
    && (forall k :: 0 <= k < |t| - 1 ==> MemoryHop(cfg, m, list, t, k))
    && !JmpAt(m, list[t[|t| - 1]]).rdy
  }

  predicate MemoryHop(cfg: Config, m: Memory, list: seq<Buf>, t: seq<nat>, k: nat)
    requires k + 1 < |t| && t[k] < |list| && t[k + 1] < |list|
  {
    Names(cfg, JmpAt(m, list[t[k]]), list[t[k + 1]])
  }

  function JmpAt(m: Memory, b: Buf): Jmp {
    Decode(LoadWords(m, WordsAt(b.addr, b.size)))
  }

  lemma MemoryTraceIsTrace(cfg: Config, base: nat, m: Memory, list: seq<Buf>, t: seq<nat>)
    requires Mirrors(cfg, base, m, list)
    ensures MemoryTrace(cfg, m, list, t) <==> HwTrace(cfg, list, t)
  {
    forall i | 0 <= i < |list|
      ensures JmpAt(m, list[i]) == list[i].jmp
    {
      assert Shows(m, list[i]);
    }
    hide JmpAt, Mirrors, Names;
    if MemoryTrace(cfg, m, list, t) {
      forall k | 0 <= k < |t| - 1
        ensures Hop(cfg, list, t, k)
      {
        assert MemoryHop(cfg, m, list, t, k);
      }
    }
    if HwTrace(cfg, list, t) {
      forall k | 0 <= k < |t| - 1
        ensures MemoryHop(cfg, m, list, t, k)
      {
        assert Hop(cfg, list, t, k);
      }
    }
  }

  /** In a mirrored queue that is a chain, each JMP in memory leads to the next buffer and fetches all of it:
      its length covers the buffer's size in bytes, with less than one unit to spare. */
  lemma JumpsCover(cfg: Config, base: nat, m: Memory, list: seq<Buf>, d: nat, k: nat)
    requires Mirrors(cfg, base, m, list) && Chain(cfg, list, d, |list|) && d <= k && k + 1 < |list|
    ensures var j, next := JmpAt(m, list[k]), list[k + 1];
            j.rdy && j.addr == next.addr && next.size <= 8 * (j.len as nat) < next.size + 8
  {
    var next := list[k + 1];
    assert Shows(m, list[k]) && Shows(m, next) && Names(cfg, list[k].jmp, next);
    assert SizeFits(cfg, next.size);
    hide Decode, LenUnits, LoadWords;
    UnitsCover(m, next);
  }

  /** The start registers do the same for the buffer the core is started at. */
  lemma StartCovers(cfg: Config, base: nat, m: Memory, c: Core, k: nat)
    requires Mirrors(cfg, base, m, c.list) && !c.working && k < |c.list| && c.rdy != 0
    ensures var c', b := Start(c, k), c.list[k];
            && c'.working && c'.regs.addr == b.addr && c'.regs.ready == c.rdy && (cfg.newHw ==> c'.regs.id == b.id)
            && b.size <= 8 * (c'.regs.len as nat) < b.size + 8
  {
    assert Shows(m, c.list[k]) && SizeFits(cfg, c.list[k].size);
    hide Decode, LenUnits, LoadWords;
    UnitsCover(m, c.list[k]);
  }

  /** In every run from boot, whatever is in memory to begin with and whatever clients write into their own
      slots before they submit: on a working core the walk of the hardware through memory, from the first
      undone buffer, visits exactly the undone buffers in list order. */
  lemma MemoryWalkIsTheQueue(cfg: Config, y: Layout, m: Memory, acts: seq<Act>, t: seq<nat>)
    requires y.base + TOTAL_DISCRETE_CMDBUF_NUM * CMDBUF_MAX_SIZE <= U32 * U32
    requires AllCanAct(cfg, y, World(BOOT, m), acts) && t != []
    ensures var w := PerformAll(cfg, y, World(BOOT, m), acts);
            var d := FirstUndone(w.core.list, 0);
            && Mirrors(cfg, y.base, w.memory, w.core.list)
            && (w.core.working && t[0] == d < |w.core.list| ==>
                  (MemoryTrace(cfg, w.memory, w.core.list, t) <==> t == Indices(d, |w.core.list|)))
  {
    assert InvAt(cfg, BOOT, 0, 0) && Mirrors(cfg, y.base, m, BOOT.list);
    RunShows(cfg, y, World(BOOT, m), acts);
    var w := PerformAll(cfg, y, World(BOOT, m), acts);
    hide PerformAll, AllCanAct, Mirrors, MemoryTrace, HwTrace;
    var d, l := SoundOf(cfg, w.core);
    FirstUndoneAt(w.core.list, 0, d, l);
    MemoryTraceIsTrace(cfg, y.base, w.memory, w.core.list, t);
    if w.core.working && t[0] == d < |w.core.list| {
      ChainIsList(cfg, w.core.list, d, t);
    }
  }

  /** In every run from boot each JMP the hardware still has to take, read from memory, fetches exactly the
      next buffer: from its address, and all of it. */
  lemma EveryJumpCovers(cfg: Config, y: Layout, m: Memory, acts: seq<Act>, k: nat)
    requires y.base + TOTAL_DISCRETE_CMDBUF_NUM * CMDBUF_MAX_SIZE <= U32 * U32
    requires AllCanAct(cfg, y, World(BOOT, m), acts)
    ensures var w := PerformAll(cfg, y, World(BOOT, m), acts);
            w.core.working && FirstUndone(w.core.list, 0) <= k && k + 1 < |w.core.list| ==>
              var j, next := JmpAt(w.memory, w.core.list[k]), w.core.list[k + 1];
              j.rdy && j.addr == next.addr && next.size <= 8 * (j.len as nat) < next.size + 8
  {
    assert InvAt(cfg, BOOT, 0, 0) && Mirrors(cfg, y.base, m, BOOT.list);
    RunShows(cfg, y, World(BOOT, m), acts);
    var w := PerformAll(cfg, y, World(BOOT, m), acts);
    hide PerformAll, AllCanAct, Mirrors, JmpAt;
    var d, l := SoundOf(cfg, w.core);
    FirstUndoneAt(w.core.list, 0, d, l);
    if w.core.working && d <= k && k + 1 < |w.core.list| {
      JumpsCover(cfg, y.base, w.memory, w.core.list, d, k);
    }
  }
}
