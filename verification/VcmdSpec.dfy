/** Values of the VCMD engine: one core, its queue of command buffers, and what every driver entry
    point does to them. Each loop of hantro/hantro_vcmd.c is one recursive function here; the class in
    VcmdEngine.dfy runs the loops in place and is proved to compute these functions. */
module VcmdSpec {
  import opened Wrappers
  import opened JmpWords

  const INT_MIN_SUM_OF_IMAGE_SIZE: nat := 4096 * 2160 * 4 * 1
  const TOTAL_DISCRETE_CMDBUF_NUM: nat := 256
  const JMP_OPCODE: bv32 := 0x19
  const CMDBUF_MAX_SIZE: nat := 8192

  datatype Priority = Normal | High

  datatype Status = StatusOk | StatusCmdErr | StatusBusErr

  /** One command buffer. units is its size in hardware length units, noInt the driver's reading of
      the IE bit at submission, stamp its place in the order of submissions. */
  datatype Buf = Buf(
    id: nat, addr: nat, size: nat, units: bv32, time: nat, prio: Priority, owner: nat, stamp: nat,
    linked: bool, done: bool, needRemove: bool, status: Status, noInt: bool, jmp: Jmp)

  /** Hardware newer than 1.0.c, and whether the core is an encoder. */
  datatype Config = Config(newHw: bool, encoder: bool)

  /** The registers that tell the hardware where to start and how many buffers are ready. */
  datatype Regs = Regs(addr: nat, len: bv32, id: nat, ready: nat)

  /** completed counts the buffers marked done since the queue was last delinked. */
  datatype Core = Core(
    list: seq<Buf>, rdy: nat, dur: nat, working: bool, abortedId: nat, regs: Regs, completed: nat)

  datatype Irq = IrqReset | IrqAbort | IrqBusErr | IrqTimeout | IrqCmdErr | IrqEndCmd | IrqJmp

  /** What the hardware says it is executing: an id (newer hardware) and an address (older). */
  datatype Report = Report(id: nat, addr: nat)

  /** A size in bytes that leaves room for what the driver writes into a buffer - the JMP and, on newer
      hardware, the addresses of two register dumps - and stays inside the slot. */
  predicate SizeFits(cfg: Config, size: nat) {
    (if cfg.newHw then 28 else 16) <= size <= CMDBUF_MAX_SIZE
  }

  function Max(a: int, b: int): int {
    if a < b then b else a
  }

  function Inc(x: nat): nat {
    (x + 1) % U32
  }

  // ---------------------------------------------------------------- linking

  /** Interrupt pacing: the time accumulated after taking b in, and b itself, possibly made to
      interrupt. The addition is a 32-bit one. */
  function Charge(dur: nat, b: Buf): (nat, Buf) {
    if !b.noInt then (dur, b)
    else if (dur + b.time) % U32 >= INT_MIN_SUM_OF_IMAGE_SIZE then (0, b.(jmp := b.jmp.(ie := true)))
    else ((dur + b.time) % U32, b)
  }

  function LinkFirst(c: Core, k: nat): Core {
    if k < |c.list| && !c.list[k].linked then
      var (dur, b) := Charge(0, c.list[k].(linked := true));
      c.(list := c.list[k := b], rdy := Inc(c.rdy), dur := dur)
    else c
  }

  function LinkStep(cfg: Config, c: Core, i: nat): Core
    requires i + 1 < |c.list|
  {
    var next := c.list[i + 1];
    if next.done then c
    else
      var cur := c.list[i].(jmp := JumpTo(cfg.newHw, c.list[i].jmp, next.addr, next.id, next.units));
      var (dur, b) := Charge(c.dur, next.(linked := true));
      c.(list := c.list[i := cur][i + 1 := b], rdy := Inc(c.rdy), dur := dur)
  }

  function LinkLoop(cfg: Config, c: Core, i: nat): Core
    decreases |c.list| - i
  {
    if i + 1 < |c.list| then LinkLoop(cfg, LinkStep(cfg, c, i), i + 1) else c
  }

  /** vcmd_link_cmdbuf, from the node at k; k past the end stands for a null node. */
  function Link(cfg: Config, c: Core, k: nat): Core {
    LinkLoop(cfg, LinkFirst(c, k), k)
  }

  function UnlinkFrom(list: seq<Buf>, k: nat): seq<Buf>
    decreases |list| - k
  {
    if k < |list| && list[k].linked then UnlinkFrom(list[k := list[k].(linked := false)], k + 1) else list
  }

  /** vcmd_delink_cmdbuf, from the node at k. */
  function Delink(c: Core, k: nat): Core {
    c.(list := UnlinkFrom(c.list, k), rdy := 0, completed := 0)
  }

  /** vcmd_start: an idle core with ready buffers is pointed at the node at k. */
  function Start(c: Core, k: nat): Core {
    if !c.working && k < |c.list| && c.rdy != 0 then
      var b := c.list[k];
      c.(working := true, regs := Regs(b.addr, b.units, b.id, c.rdy))
    else c
  }

  /** The recovery sequence shared by the error paths: delink, relink and restart from base. */
  function Restart(cfg: Config, c: Core, base: nat): Core {
    var c' := Link(cfg, c, base);
    if c'.rdy != 0 then Start(c', base) else c'
  }

  function Recover(cfg: Config, c: Core, base: nat): Core {
    Restart(cfg, Delink(c, base), base)
  }

  // ---------------------------------------------------------------- searching

  function FirstUndone(list: seq<Buf>, k: nat): (r: nat)
    ensures k <= |list| ==> k <= r <= |list|
    ensures r < |list| ==> !list[r].done
    ensures forall i :: k <= i < r && i < |list| ==> list[i].done
    decreases |list| - k
  {
    if k < |list| && list[k].done then FirstUndone(list, k + 1) else k
  }

  /** The place of a high-priority buffer: before the first undone normal one. */
  function FirstUndoneNormal(list: seq<Buf>, k: nat): (r: nat)
    ensures k <= |list| ==> k <= r <= |list|
    ensures r < |list| ==> list[r].prio == Normal && !list[r].done
    ensures forall i :: k <= i < r && i < |list| ==> list[i].prio == High || list[i].done
    decreases |list| - k
  {
    if k < |list| && !(list[k].prio == Normal && !list[k].done) then FirstUndoneNormal(list, k + 1) else k
  }

  /** find_last_linked_cmdbuf seen from the node at p. */
  function LastLinked(list: seq<Buf>, p: nat): (r: nat)
    requires p <= |list|
    ensures r <= p
  {
    if p == 0 then 0 else if list[p - 1].linked then p - 1 else LastLinked(list, p - 1)
  }

  function FindById(list: seq<Buf>, id: nat): (r: Option<nat>)
    ensures r.Some? ==> r.value < |list| && list[r.value].id == id
    ensures r.None? ==> forall i :: 0 <= i < |list| ==> list[i].id != id
  {
    if list == [] then None
    else if list[0].id == id then Some(0)
    else match FindById(list[1..], id)
      case None => None
      case Some(r) => Some(r + 1)
  }

  predicate Executing(b: Buf, addr: nat) {
    b.addr <= addr < b.addr + b.size && !b.done
  }

  /** The search the interrupt handler makes on older hardware: finished buffers are passed over. */
  function FindByAddr(list: seq<Buf>, addr: nat): (r: Option<nat>)
    ensures r.Some? ==> r.value < |list| && Executing(list[r.value], addr)
    ensures r.Some? ==> forall i :: 0 <= i < r.value ==> !Executing(list[i], addr)
    ensures r.None? ==> forall i :: 0 <= i < |list| ==> !Executing(list[i], addr)
  {
    if list == [] then None
    else if Executing(list[0], addr) then Some(0)
    else match FindByAddr(list[1..], addr)
      case None => None
      case Some(r) => Some(r + 1)
  }

  /** The buffer an error interrupt is about. The end-command interrupt of older hardware looks for a
      buffer with an END command, and submission never lets one in. */
  function Locate(cfg: Config, list: seq<Buf>, irq: Irq, rep: Report): (r: Option<nat>)
    ensures r.Some? ==> r.value < |list|
  {
    if cfg.newHw then FindById(list, rep.id)
    else if irq == IrqEndCmd then None
    else FindByAddr(list, rep.addr)
  }

  // ---------------------------------------------------------------- interrupts

  /** The backward marking loop: from r (exclusive upper end) down to the first buffer already done. */
  function MarkBack(c: Core, r: nat): (c': Core)
    requires r <= |c.list|
    ensures |c'.list| == |c.list|
    decreases r
  {
    if r == 0 || c.list[r - 1].done then c
    else
      MarkBack(c.(list := c.list[r - 1 := c.list[r - 1].(done := true, status := StatusOk)],
                  completed := c.completed + 1), r - 1)
  }

  function SetStatus(c: Core, r: nat, s: Status): Core
    requires r < |c.list|
  {
    c.(list := c.list[r := c.list[r].(status := s)])
  }

  /** The part of an error interrupt after the buffer it concerns has been found at r. */
  function IsrAt(cfg: Config, c: Core, irq: Irq, r: nat, swAbort: bool): Core
    requires r < |c.list|
  {
    if irq == IrqAbort then
      var c' := Delink(MarkBack(c, r + 1), r + 1);
      if cfg.encoder && !swAbort then Restart(cfg, c', r + 1) else c'
    else if irq == IrqTimeout then Recover(cfg, MarkBack(c, r), r)
    else
      var c' := MarkBack(c, r + 1);
      var c2 := if irq == IrqBusErr then SetStatus(c', r, StatusBusErr)
                else if irq == IrqCmdErr then SetStatus(c', r, StatusCmdErr) else c';
      Recover(cfg, c2, r + 1)
  }

  /** Every error path first declares the core idle; an abort also notes which buffer it hit. */
  function Stopped(cfg: Config, c: Core, irq: Irq, rep: Report): Core {
    var id: nat := if cfg.newHw then rep.id else 0;
    c.(working := false, abortedId := if irq == IrqAbort then id else c.abortedId)
  }

  /** hantrovcmd_isr for one decoded cause. */
  function Isr(cfg: Config, c: Core, irq: Irq, rep: Report, swAbort: bool): Core {
    if c.list == [] || (cfg.newHw && rep.id >= TOTAL_DISCRETE_CMDBUF_NUM) then c
    else if irq == IrqReset then Recover(cfg, c.(working := false), FirstUndone(c.list, 0))
    else if irq == IrqJmp then
      if rep.id == 0 || rep.id >= TOTAL_DISCRETE_CMDBUF_NUM then c
      else match FindById(c.list, rep.id)
        case None => c
        case Some(r) => MarkBack(c, r + 1)
    else
      var c' := Stopped(cfg, c, irq, rep);
      match Locate(cfg, c.list, irq, rep)
      case None => c'
      case Some(r) => IsrAt(cfg, c', irq, r, swAbort)
  }

  // ---------------------------------------------------------------- client calls

  /** What the driver reads about the hardware while it picks a place: how many buffers it has
      executed, the id it is executing, and the report of the abort it may have to trigger. */
  datatype Probe = Probe(exeCount: nat, execId: nat, abort: Report)

  function Executed(cfg: Config, c: Core, probe: Probe): nat {
    if cfg.newHw && probe.exeCount != c.rdy then Inc(probe.exeCount) else probe.exeCount
  }

  /** Some idle-looking reason to queue at the tail without comparing execution times. */
  predicate TakesTail(cfg: Config, c: Core, probe: Probe) {
    c.list == [] || c.list[|c.list| - 1].done || c.rdy == Executed(cfg, c, probe)
  }

  predicate ProbeFails(cfg: Config, probe: Probe) {
    cfg.newHw && (probe.execId == 0 || probe.execId >= TOTAL_DISCRETE_CMDBUF_NUM)
  }

  predicate Preempts(cfg: Config, c: Core, b: Buf, probe: Probe) {
    !TakesTail(cfg, c, probe) && !ProbeFails(cfg, probe) && b.prio == High
  }

  /** The core at the moment of insertion: a high-priority buffer first waits for an abort. */
  function BeforeInsert(cfg: Config, c: Core, b: Buf, probe: Probe): Core {
    if Preempts(cfg, c, b, probe) && c.working then Isr(cfg, c, IrqAbort, probe.abort, true) else c
  }

  function InsertAt(cfg: Config, c: Core, b: Buf, probe: Probe): (p: nat)
    ensures p <= |BeforeInsert(cfg, c, b, probe).list|
  {
    var c' := BeforeInsert(cfg, c, b, probe);
    if Preempts(cfg, c, b, probe) then FirstUndoneNormal(c'.list, 0) else |c'.list|
  }

  function Insert(list: seq<Buf>, p: nat, b: Buf): seq<Buf>
    requires p <= |list|
  {
    list[..p] + [b] + list[p..]
  }

  /** Linking and running after the node at p has been inserted. */
  function LinkAndRun(cfg: Config, c: Core, p: nat): Core
    requires p < |c.list|
  {
    var k := LastLinked(c.list, p);
    var c' := Link(cfg, c, k);
    if !c'.working then Start(c', FirstUndone(c'.list, k))
    else if c'.rdy != c.rdy then c'.(regs := c'.regs.(ready := c'.rdy))
    else c'
  }

  /** The buffer as submission prepares it. */
  function Prepared(b: Buf): Buf {
    b.(noInt := !b.jmp.ie)
  }

  predicate Accepts(cfg: Config, c: Core, b: Buf, probe: Probe) {
    b.jmp.opcode == JMP_OPCODE && (TakesTail(cfg, c, probe) || !ProbeFails(cfg, probe))
  }

  /** link_and_run_cmdbuf with select_vcmd for one core; a rejected buffer changes nothing. */
  function Submit(cfg: Config, c: Core, b: Buf, probe: Probe): Core {
    if !Accepts(cfg, c, b, probe) then c
    else
      var c' := BeforeInsert(cfg, c, b, probe);
      var p := InsertAt(cfg, c, b, probe);
      LinkAndRun(cfg, c'.(list := Insert(c'.list, p, Prepared(b))), p)
  }

  /** One pass of the release loop, from index i - 1 down to the head. */
  function Sweep(list: seq<Buf>, i: nat): seq<Buf>
    requires i <= |list|
    decreases i
  {
    if i == 0 then list
    else if list[i - 1].needRemove && i < |list| then Sweep(list[..i - 1] + list[i..], i - 1)
    else Sweep(list, i - 1)
  }

  /** release_cmdbuf of the node at r. */
  function Release(c: Core, r: nat): Core
    requires r < |c.list|
  {
    c.(list := Sweep(c.list[r := c.list[r].(needRemove := true)], r + 1))
  }

  /** vcmd_pm_resume for this core. */
  function Resume(cfg: Config, c: Core): Core {
    if c.working then c
    else match FindById(c.list, c.abortedId)
      case None => c
      case Some(r) =>
        var c' := Link(cfg, c, r + 1);
        if c'.rdy != 0 then Start(c', FirstUndone(c'.list, r)) else c'
  }

  /** The JMP of a buffer whose successor has been taken out: to the one after it, or closed. */
  function Rejoined(cfg: Config, j: Jmp, rest: seq<Buf>, forceIe: bool): Jmp {
    if rest == [] then j.(rdy := false, len := 0)
    else JumpTo(cfg.newHw, j, rest[0].addr, rest[0].id, rest[0].units).(ie := j.ie || forceIe)
  }

  /** vcmd_delink_rm_cmdbuf: the node at i leaves the queue and its predecessor jumps past it. */
  function DelinkRemove(cfg: Config, c: Core, i: nat): Core
    requires i < |c.list|
  {
    var rest := c.list[i + 1..];
    if i == 0 then c.(list := rest)
    else
      var prev := c.list[i - 1];
      var jmp := Rejoined(cfg, prev.jmp, rest, c.dur > INT_MIN_SUM_OF_IMAGE_SIZE);
      c.(list := c.list[..i - 1] + [prev.(jmp := jmp)] + rest)
  }
}
