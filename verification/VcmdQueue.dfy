/** What client calls and power management do to the queue. */
module VcmdQueue {
  import opened Wrappers
  import opened JmpWords
  import opened VcmdSpec
  import opened VcmdChain
  import opened VcmdRecovery

  /** A reserved buffer ready for submission: not yet queued under its id or address, its JMP closed. */
  predicate Fresh(list: seq<Buf>, b: Buf) {
    && !b.linked && !b.done && !b.needRemove && !b.jmp.rdy
    && 0 < b.id < TOTAL_DISCRETE_CMDBUF_NUM
    && forall i :: 0 <= i < |list| ==> list[i].id != b.id && list[i].addr != b.addr
  }

  lemma InsertAtPlace(cfg: Config, list: seq<Buf>, d: nat, l: nat, p: nat, b: Buf)
    requires Sound(cfg, list, d, l) && l <= p <= |list|
    requires Fresh(list, b)
    ensures Sound(cfg, Insert(list, p, Prepared(b)), d, l)
  {
    hide Pattern, Chain, DistinctIds, Insert, TailStops;
    var list' := Insert(list, p, Prepared(b));
    InsertInserts(list, p, Prepared(b));
    InsertedPattern(list, list', d, l, p);
    InsertedChain(cfg, list, list', d, l, p);
    InsertedDistinct(list, list', p);
  }

  lemma InsertInserts(list: seq<Buf>, p: nat, b: Buf)
    requires p <= |list|
    ensures Inserted(list, Insert(list, p, b), p) && Insert(list, p, b)[p] == b
  {
  }

  /** list' is list with a buffer inserted at p. */
  predicate Inserted(list: seq<Buf>, list': seq<Buf>, p: nat) {
    && |list'| == |list| + 1 && p <= |list|
    && forall i :: 0 <= i < |list'| && i != p ==> list'[i] == list[if i < p then i else i - 1]
  }

  lemma InsertedPattern(list: seq<Buf>, list': seq<Buf>, d: nat, l: nat, p: nat)
    requires Pattern(list, d, l) && l <= p && Inserted(list, list', p)
    requires !list'[p].done && !list'[p].linked && !list'[p].needRemove
    ensures Pattern(list', d, l)
  {
  }

  lemma InsertedChain(cfg: Config, list: seq<Buf>, list': seq<Buf>, d: nat, l: nat, p: nat)
    requires Chain(cfg, list, d, l) && TailStops(list) && l <= p && Inserted(list, list', p) && !list'[p].jmp.rdy
    ensures Chain(cfg, list', d, l) && TailStops(list')
  {
  }

  lemma InsertedDistinct(list: seq<Buf>, list': seq<Buf>, p: nat)
    requires DistinctIds(list) && Inserted(list, list', p) && 0 < list'[p].id < TOTAL_DISCRETE_CMDBUF_NUM
    requires forall i :: 0 <= i < |list| ==> list[i].id != list'[p].id && list[i].addr != list'[p].addr
    ensures DistinctIds(list')
  {
    forall i, j | 0 <= i < j < |list'|
      ensures Differ(list'[i], list'[j])
    {
      var i', j' := if i < p then i else i - 1, if j < p then j else j - 1;
      if i != p && j != p {
        assert Differ(list[i'], list[j']);
      }
    }
  }

  /** Linking from the last linked buffer takes in everything behind it. */
  lemma LinkInserted(cfg: Config, c: Core, p: nat, d: nat, l: nat)
    requires p < |c.list| && l <= p && (d == l || l == p) && c.rdy < U32
    requires Sound(cfg, c.list, d, l)
    ensures var c' := Link(cfg, c, LastLinked(c.list, p));
            && Sound(cfg, c'.list, d, |c.list|)
            && SameRest(c, c')
            && SameQueue(c.list, c'.list)
            && c'.rdy == (c.rdy + |c.list| - l) % U32
            && (l == p > 0 ==> Names(cfg, c'.list[p - 1].jmp, c'.list[p]))
            && (forall i :: 0 <= i < |c.list| ==> (c'.list[i].done <==> i < d))
  {
    LastLinkedAt(c.list, p, l);
    hide LinkLoop, LastLinked;
    var k := LastLinked(c.list, p);
    var c' := Link(cfg, c, k);
    var w := if l == 0 then 0 else Max(d - 1, k);
    if l == 0 {
      LinkFromUnlinked(cfg, c, 0);
    } else {
      LinkFromLinked(cfg, c, k, d, l);
    }
    RelinkedKeeps(cfg, c.list, c'.list, w, d, l);
    RelinkedSame(cfg, c.list, c'.list, w, l);
    if l == p > 0 {
      assert RelinkedAt(cfg, c.list, c'.list, w, l, p - 1);
    }
    hide Chain, DistinctIds, Link, Relinked;
  }

  lemma RelinkedSame(cfg: Config, list: seq<Buf>, new': seq<Buf>, w: int, l: nat)
    requires Relinked(cfg, list, new', w, l)
    ensures SameQueue(list, new')
  {
    forall i | 0 <= i < |list|
      ensures SameWork(list[i], new'[i])
    {
      assert RelinkedAt(cfg, list, new', w, l, i);
    }
  }

  /** A running core sees one more ready buffer at the end of its chain. */
  lemma LinkAndRunWorking(cfg: Config, c: Core, p: nat, d: nat)
    requires c.working && p == |c.list| - 1 && Sound(cfg, c.list, d, p)
    requires c.regs.ready == c.rdy && c.rdy == (p - d + c.completed) % U32
    ensures var c' := LinkAndRun(cfg, c, p);
            && InvAt(cfg, c', d, |c.list|) && c'.working
            && SameQueue(c.list, c'.list)
            && c'.rdy == Inc(c.rdy)
            && (p > 0 ==> Names(cfg, c'.list[p - 1].jmp, c'.list[p]))
            && c'.regs == c.regs.(ready := c'.rdy)
  {
    LinkInserted(cfg, c, p, d, p);
    WrapAdd(p - d + c.completed, 1);
  }

  /** An idle core is started at the first undone buffer with every undone buffer linked. */
  lemma LinkAndRunIdle(cfg: Config, c: Core, p: nat, d: nat)
    requires !c.working && c.rdy == 0 && c.completed == 0
    requires d <= p < |c.list| && Sound(cfg, c.list, d, d)
    ensures var c' := LinkAndRun(cfg, c, p);
            && InvAt(cfg, c', d, |c.list|) && c'.working
            && Recovered(c, c', d)
  {
    hide Link, Start, Chain, DistinctIds, TailStops;
    LinkInserted(cfg, c, p, d, d);
    LastLinkedAt(c.list, p, d);
    var k := LastLinked(c.list, p);
    var c1 := Link(cfg, c, k);
    FirstUndoneAt(c1.list, k, d, |c.list|);
    QueueIsShort(c.list);
    assert c1.rdy == |c1.list| - d;
    hide Pattern, Sound, Recovered, InvAt, LastLinked, SameQueue;
    StartLinked(cfg, c, c1, d);
  }

  /** What the hardware may report while it works on this queue. */
  predicate Credible(cfg: Config, c: Core, irq: Irq, rep: Report) {
    if c.list == [] || irq == IrqReset || (cfg.newHw && rep.id >= TOTAL_DISCRETE_CMDBUF_NUM) then true
    else if irq == IrqJmp then
      match FindById(c.list, rep.id)
      case None => true
      case Some(r) => c.list[r].linked
    else
      match Locate(cfg, c.list, irq, rep)
      case None => false
      case Some(r) => Current(c.list, irq, r)
  }

  /** No buffer becomes undone. */
  predicate DoneGrows(list: seq<Buf>, list': seq<Buf>) {
    |list| == |list'| && forall i :: 0 <= i < |list| && list[i].done ==> list'[i].done
  }

  lemma SoundOf(cfg: Config, c: Core) returns (d: nat, l: nat)
    requires Inv(cfg, c)
    ensures InvAt(cfg, c, d, l) && Sound(cfg, c.list, d, l)
  {
    d, l :| InvAt(cfg, c, d, l);
  }

  /** Every credible interrupt keeps the invariant. */
  lemma IsrKeeps(cfg: Config, c: Core, irq: Irq, rep: Report, swAbort: bool)
    requires Inv(cfg, c) && Credible(cfg, c, irq, rep)
    ensures Inv(cfg, Isr(cfg, c, irq, rep, swAbort))
    ensures SameQueue(c.list, Isr(cfg, c, irq, rep, swAbort).list)
    ensures DoneGrows(c.list, Isr(cfg, c, irq, rep, swAbort).list)
    ensures irq == IrqAbort && swAbort && c.list != [] && !(cfg.newHw && rep.id >= TOTAL_DISCRETE_CMDBUF_NUM) ==>
              !Isr(cfg, c, irq, rep, swAbort).working
  {
    var d, l := SoundOf(cfg, c);
    var c' := Isr(cfg, c, irq, rep, swAbort);
    if c.list == [] || (cfg.newHw && rep.id >= TOTAL_DISCRETE_CMDBUF_NUM) {
    } else if irq == IrqReset || irq == IrqJmp {
      PlainIsrKeeps(cfg, c, irq, rep, swAbort, d, l);
    } else {
      ErrorKeeps(cfg, c, irq, rep, swAbort, d, l);
    }
  }

  lemma PlainIsrKeeps(cfg: Config, c: Core, irq: Irq, rep: Report, swAbort: bool, d: nat, l: nat)
    requires InvAt(cfg, c, d, l) && c.list != [] && !(cfg.newHw && rep.id >= TOTAL_DISCRETE_CMDBUF_NUM)
    requires (irq == IrqReset || irq == IrqJmp) && Credible(cfg, c, irq, rep)
    ensures var c' := Isr(cfg, c, irq, rep, swAbort);
            Inv(cfg, c') && SameQueue(c.list, c'.list) && DoneGrows(c.list, c'.list)
  {
    hide Recover, IsrAt, MarkBack;
    var c' := Isr(cfg, c, irq, rep, swAbort);
    if irq == IrqReset {
      assert c' == Recover(cfg, c.(working := false), FirstUndone(c.list, 0));
      hide Isr, Credible, Chain, TailStops, DistinctIds;
      ResetRecovers(cfg, c, d, l);
      assert InvAt(cfg, c', d, |c.list|);
    } else {
      assert c' == Isr(cfg, c, IrqJmp, Report(rep.id, 0), false);
      var d' := JmpKeeps(cfg, c, rep.id, d, l);
      hide Isr, Credible, Chain, TailStops, DistinctIds;
      assert InvAt(cfg, c', d', l);
    }
  }

  /** Where an error or abort interrupt leaves the queue: done up to the reported buffer (for a
      timeout, up to the one before), and linked to the end unless the abort was meant to stop. */
  lemma ErrorProgress(cfg: Config, c: Core, irq: Irq, rep: Report, swAbort: bool, d: nat, l: nat)
    requires InvAt(cfg, c, d, l) && c.list != [] && !(cfg.newHw && rep.id >= TOTAL_DISCRETE_CMDBUF_NUM)
    requires irq != IrqReset && irq != IrqJmp && Credible(cfg, c, irq, rep)
    ensures var c' := Isr(cfg, c, irq, rep, swAbort);
            var d' := DoneAfter(irq, Locate(cfg, c.list, irq, rep).value);
            && InvAt(cfg, c', d', if irq == IrqAbort && !(cfg.encoder && !swAbort) then d' else |c.list|)
            && SameQueue(c.list, c'.list) && d <= d'
            && (irq == IrqAbort && swAbort ==> !c'.working)
  {
    var r := Locate(cfg, c.list, irq, rep).value;
    var c1 := Stopped(cfg, c, irq, rep);
    if irq == IrqAbort {
      forall i | r < i < |c.list|
        ensures c.list[i].id != c1.abortedId
      {
        assert Differ(c.list[r], c.list[i]);
      }
      AbortStops(cfg, c1, r, d, l, swAbort);
    } else {
      ErrorRecovers(cfg, c1, irq, r, d, l);
      SwAbortOnlyForAbort(cfg, c1, irq, r, swAbort);
    }
  }

  lemma ErrorKeeps(cfg: Config, c: Core, irq: Irq, rep: Report, swAbort: bool, d: nat, l: nat)
    requires InvAt(cfg, c, d, l) && c.list != [] && !(cfg.newHw && rep.id >= TOTAL_DISCRETE_CMDBUF_NUM)
    requires irq != IrqReset && irq != IrqJmp && Credible(cfg, c, irq, rep)
    ensures var c' := Isr(cfg, c, irq, rep, swAbort);
            && Inv(cfg, c') && SameQueue(c.list, c'.list) && DoneGrows(c.list, c'.list)
            && (irq == IrqAbort && swAbort ==> !c'.working)
  {
    ErrorProgress(cfg, c, irq, rep, swAbort, d, l);
    var d' := DoneAfter(irq, Locate(cfg, c.list, irq, rep).value);
    var l' := if irq == IrqAbort && !(cfg.encoder && !swAbort) then d' else |c.list|;
    assert InvAt(cfg, Isr(cfg, c, irq, rep, swAbort), d', l');
  }

  lemma SwAbortOnlyForAbort(cfg: Config, c: Core, irq: Irq, r: nat, swAbort: bool)
    requires r < |c.list| && irq != IrqAbort
    ensures IsrAt(cfg, c, irq, r, swAbort) == IsrAt(cfg, c, irq, r, false)
  {
  }

  /** A JMP interrupt marks everything up to the reported buffer and touches nothing else. */
  lemma JmpKeeps(cfg: Config, c: Core, id: nat, d: nat, l: nat) returns (d': nat)
    requires InvAt(cfg, c, d, l) && c.list != []
    requires Credible(cfg, c, IrqJmp, Report(id, 0)) && (cfg.newHw ==> id < TOTAL_DISCRETE_CMDBUF_NUM)
    ensures var c' := Isr(cfg, c, IrqJmp, Report(id, 0), false);
            && InvAt(cfg, c', d', l) && SameQueue(c.list, c'.list)
            && c' == c.(list := c'.list, completed := c'.completed)
    ensures d' == match FindById(c.list, id) case None => d case Some(r) => Max(d, r + 1)
  {
    JmpIs(cfg, c, id);
    hide Isr, Chain, TailStops, DistinctIds;
    d' := d;
    if FindById(c.list, id).Some? {
      var r := FindById(c.list, id).value;
      assert c.list[r].linked && r + 1 <= l;
      hide MarkBack, InvAt, SameQueue, Credible;
      MarkedUpTo(cfg, c, r + 1, d, l);
      d' := Max(d, r + 1);
    }
  }

  lemma JmpIs(cfg: Config, c: Core, id: nat)
    requires DistinctIds(c.list) && c.list != [] && (cfg.newHw ==> id < TOTAL_DISCRETE_CMDBUF_NUM)
    ensures Isr(cfg, c, IrqJmp, Report(id, 0), false) ==
              match FindById(c.list, id) case None => c case Some(r) => MarkBack(c, r + 1)
  {
    hide MarkBack, Recover, IsrAt;
    if FindById(c.list, id).Some? {
      assert 0 < c.list[FindById(c.list, id).value].id < TOTAL_DISCRETE_CMDBUF_NUM;
    }
  }

  lemma MarkedUpTo(cfg: Config, c: Core, n: nat, d: nat, l: nat)
    requires InvAt(cfg, c, d, l) && n <= l
    ensures var c' := MarkBack(c, n);
            && InvAt(cfg, c', Max(d, n), l) && SameQueue(c.list, c'.list)
            && c' == c.(list := c'.list, completed := c'.completed)
  {
    if n <= d {
      assert MarkBack(c, n) == c;
    } else {
      hide MarkBack, Pattern, Chain, TailStops, DistinctIds, SameQueue;
      MarkAt(cfg, c, n, d, l);
    }
  }
}
