/** Interrupt pacing: how much work can pass between two interrupts. */
module VcmdPacing {
  import opened Wrappers
  import opened JmpWords
  import opened VcmdSpec
  import opened VcmdChain
  import opened VcmdRecovery
  import opened VcmdQueue
  import opened VcmdSafety
  import opened VcmdPower
  import opened VcmdRuns

  /** Linked, still to be executed, and its JMP does not interrupt. */
  predicate Quiet(b: Buf) {
    b.linked && !b.done && !b.jmp.ie
  }

  /** The work in the quiet stretch that ends at index j - 1. */
  function Trail(list: seq<Buf>, j: nat): nat
    requires j <= |list|
  {
    if j == 0 || !Quiet(list[j - 1]) then 0 else Trail(list, j - 1) + list[j - 1].time
  }

  /** The work in list[i..j]. */
  function Work(list: seq<Buf>, i: nat, j: nat): nat
    requires i <= j <= |list|
    decreases j
  {
    if i == j then 0 else Work(list, i, j - 1) + list[j - 1].time
  }

  /** Small enough that the 32-bit accumulator cannot wrap. */
  predicate TimesFit(list: seq<Buf>) {
    forall i :: 0 <= i < |list| ==> list[i].time + INT_MIN_SUM_OF_IMAGE_SIZE <= U32
  }

  /** A buffer the driver does not count towards pacing interrupts by itself. */
  predicate Marked(list: seq<Buf>) {
    forall i :: 0 <= i < |list| && !list[i].noInt ==> list[i].jmp.ie
  }

  /** Times as the driver keeps them, in 32 bits. */
  predicate Times32(list: seq<Buf>) {
    forall i :: 0 <= i < |list| ==> list[i].time < U32
  }

  /** Every quiet stretch stays below the limit. */
  predicate Below(list: seq<Buf>) {
    forall j :: 0 <= j <= |list| ==> Trail(list, j) < INT_MIN_SUM_OF_IMAGE_SIZE
  }

  predicate Bounded(c: Core, l: nat)
    requires l <= |c.list|
  {
    c.dur < INT_MIN_SUM_OF_IMAGE_SIZE && Trail(c.list, l) <= c.dur && Marked(c.list) && Below(c.list)
  }

  predicate Paced(c: Core, l: nat)
    requires l <= |c.list|
  {
    Bounded(c, l) && TimesFit(c.list)
  }

  /** Some progress: less of the queue is quiet than before. */
  predicate Quieter(list: seq<Buf>, list': seq<Buf>) {
    && |list| == |list'|
    && forall i :: 0 <= i < |list| ==> QuieterAt(list[i], list'[i])
  }

  predicate QuieterAt(b: Buf, b': Buf) {
    b'.time == b.time && b'.noInt == b.noInt && (b.jmp.ie ==> b'.jmp.ie) && (Quiet(b') ==> Quiet(b))
  }

  lemma {:induction false} QuieterTrail(list: seq<Buf>, list': seq<Buf>, j: nat)
    requires Quieter(list, list') && j <= |list|
    ensures Trail(list', j) <= Trail(list, j)
    decreases j
  {
    if j > 0 && Quiet(list'[j - 1]) {
      assert QuieterAt(list[j - 1], list'[j - 1]);
      QuieterTrail(list, list', j - 1);
    }
  }

  lemma QuieterPaced(c: Core, c': Core, l: nat, l': nat)
    requires l <= |c.list| && Paced(c, l) && Quieter(c.list, c'.list) && c'.dur == c.dur
    requires l' <= |c.list| && (l' == l || Trail(c'.list, l') == 0)
    ensures Paced(c', l')
  {
    forall i | 0 <= i < |c.list|
      ensures QuieterAt(c.list[i], c'.list[i])
    {
    }
    forall j | 0 <= j <= |c.list|
      ensures Trail(c'.list, j) <= Trail(c.list, j)
    {
      QuieterTrail(c.list, c'.list, j);
    }
  }

  lemma {:induction false} SameTrail(list: seq<Buf>, list': seq<Buf>, j: nat)
    requires j <= |list| && j <= |list'|
    requires forall i :: 0 <= i < j ==> list'[i].time == list[i].time && (Quiet(list'[i]) <==> Quiet(list[i]))
    ensures Trail(list', j) == Trail(list, j)
    decreases j
  {
    if j > 0 {
      SameTrail(list, list', j - 1);
    }
  }

  // ---------------------------------------------------------------- linking

  /** The accumulator does not wrap over a buffer that is charged and does not interrupt yet. */
  predicate Fits(dur: nat, b: Buf) {
    b.noInt && !b.jmp.ie ==> dur + b.time < U32
  }

  lemma ChargePaces(dur: nat, b: Buf)
    requires dur < INT_MIN_SUM_OF_IMAGE_SIZE && Fits(dur, b) && (!b.noInt ==> b.jmp.ie)
    ensures var (dur', b') := Charge(dur, b);
            && dur' < INT_MIN_SUM_OF_IMAGE_SIZE
            && b' == b.(jmp := b.jmp.(ie := b'.jmp.ie)) && (b.jmp.ie ==> b'.jmp.ie)
            && (!b'.jmp.ie ==> dur' == dur + b.time)
  {
  }

  /** What a submitted buffer means for pacing: one whose JMP interrupts already is never charged; any other
      is added to the accumulator, and interrupts iff the sum reaches 35389440 in 32 bits. */
  lemma SubmittedCharge(dur: nat, b: Buf)
    ensures var (dur', b') := Charge(dur, Prepared(b));
            && b'.jmp == b.jmp.(ie := b'.jmp.ie)
            && (b.jmp.ie ==> dur' == dur && b'.jmp.ie)
            && (!b.jmp.ie ==>
                  var sum := (dur + b.time) % 0x1_0000_0000;
                  (b'.jmp.ie <==> sum >= 35389440) && dur' == if b'.jmp.ie then 0 else sum)
  {
  }

  /** The bound is kept by taking a buffer in iff the 32-bit accumulator does not wrap. */
  lemma ChargeIsExact(dur: nat, b: Buf)
    requires dur < INT_MIN_SUM_OF_IMAGE_SIZE && b.time < U32 && b.noInt && !b.jmp.ie
    ensures (Charge(dur, b).1.jmp.ie || dur + b.time < INT_MIN_SUM_OF_IMAGE_SIZE) <==> dur + b.time < U32
  {
    if dur + b.time >= U32 {
      assert (dur + b.time) % U32 == dur + b.time - U32;
    }
  }

  /** A wrapped accumulator: after 35389439 units, 4259577857 more go by without an interrupt. */
  lemma PacingCanWrap(b: Buf)
    requires b.noInt && !b.jmp.ie && b.time == 4259577857
    ensures Charge(35389439, b) == (0, b) && 35389439 + b.time >= INT_MIN_SUM_OF_IMAGE_SIZE
  {
    assert (35389439 + b.time) % U32 == 0;
  }

  /** Along the linking loop from index i, no charge wraps. */
  predicate LoopFits(cfg: Config, c: Core, i: nat)
    decreases |c.list| - i
  {
    i + 1 < |c.list| ==>
      (c.list[i + 1].done || Fits(c.dur, c.list[i + 1])) && LoopFits(cfg, LinkStep(cfg, c, i), i + 1)
  }

  /** While vcmd_link_cmdbuf runs from the node at k, no charge wraps. */
  predicate LinkFits(cfg: Config, c: Core, k: nat) {
    LoopFits(cfg, LinkFirst(c, k), k)
  }

  lemma LinkStepBounded(cfg: Config, c: Core, i: nat, d: nat)
    requires i + 1 < |c.list| && d <= i + 1 && Fits(c.dur, c.list[i + 1])
    requires Pattern(c.list, d, i + 1) && Bounded(c, i + 1)
    ensures Bounded(LinkStep(cfg, c, i), i + 2)
  {
    var c' := LinkStep(cfg, c, i);
    ChargePaces(c.dur, c.list[i + 1].(linked := true));
    assert Quiet(c'.list[i]) <==> Quiet(c.list[i]);
    SameTrail(c.list, c'.list, i + 1);
    forall j | 0 <= j <= |c.list|
      ensures Trail(c'.list, j) < INT_MIN_SUM_OF_IMAGE_SIZE
    {
      if j <= i {
        SameTrail(c.list, c'.list, j);
      } else if i + 2 < j {
        assert !Quiet(c'.list[j - 1]);
      }
    }
  }

  /** A charge that wraps leaves the buffer quiet although it alone is beyond the limit. */
  lemma LinkStepWraps(cfg: Config, c: Core, i: nat)
    requires i + 1 < |c.list| && !c.list[i + 1].done && !Fits(c.dur, c.list[i + 1])
    requires c.dur < INT_MIN_SUM_OF_IMAGE_SIZE && Times32(c.list)
    ensures Trail(LinkStep(cfg, c, i).list, i + 2) >= INT_MIN_SUM_OF_IMAGE_SIZE
  {
    WrapsBelow(c.dur, c.list[i + 1].time);
    assert Quiet(LinkStep(cfg, c, i).list[i + 1]);
  }

  lemma WrapsBelow(dur: nat, time: nat)
    requires dur < INT_MIN_SUM_OF_IMAGE_SIZE && time < U32 <= dur + time
    ensures (dur + time) % U32 < INT_MIN_SUM_OF_IMAGE_SIZE <= time
  {
    assert (dur + time) % U32 == dur + time - U32;
  }

  /** What has been linked keeps its stretches. */
  lemma {:induction false} LinkLoopKeepsTrail(cfg: Config, c: Core, i: nat, j: nat)
    requires j <= i + 1 <= |c.list|
    ensures |LinkLoop(cfg, c, i).list| == |c.list| && Trail(LinkLoop(cfg, c, i).list, j) == Trail(c.list, j)
    decreases |c.list| - i
  {
    if i + 1 < |c.list| {
      var c' := LinkStep(cfg, c, i);
      assert Quiet(c'.list[i]) <==> Quiet(c.list[i]);
      SameTrail(c.list, c'.list, j);
      LinkLoopKeepsTrail(cfg, c', i + 1, j);
    }
  }

  lemma LoopWraps(cfg: Config, c: Core, i: nat)
    requires i + 1 < |c.list| && !c.list[i + 1].done && !Fits(c.dur, c.list[i + 1])
    requires c.dur < INT_MIN_SUM_OF_IMAGE_SIZE && Times32(c.list)
    ensures |LinkLoop(cfg, c, i).list| == |c.list| && !Below(LinkLoop(cfg, c, i).list)
  {
    LinkStepWraps(cfg, c, i);
    LinkLoopKeepsTrail(cfg, LinkStep(cfg, c, i), i + 1, i + 2);
    hide LinkStep, Trail;
  }

  lemma {:induction false} LinkLoopIsExact(cfg: Config, c: Core, i: nat, d: nat)
    requires i < |c.list| && Pattern(c.list, d, Max(d, i + 1)) && Bounded(c, Max(d, i + 1)) && Times32(c.list)
    ensures var c' := LinkLoop(cfg, c, i);
            && |c'.list| == |c.list|
            && (if LoopFits(cfg, c, i) then Bounded(c', |c.list|) else !Below(c'.list))
    decreases |c.list| - i
  {
    hide Below, Marked;
    if i + 1 < |c.list| {
      var c' := LinkStep(cfg, c, i);
      if c.list[i + 1].done {
        LinkLoopIsExact(cfg, c', i + 1, d);
      } else if Fits(c.dur, c.list[i + 1]) {
        LinkStepBounded(cfg, c, i, d);
        assert Pattern(c'.list, d, i + 2);
        LinkLoopIsExact(cfg, c', i + 1, d);
      } else {
        LoopWraps(cfg, c, i);
      }
    }
  }

  lemma LinkFirstBounded(c: Core, d: nat)
    requires d < |c.list| && Pattern(c.list, d, d) && Bounded(c, d) && Times32(c.list)
    ensures Pattern(LinkFirst(c, d).list, d, d + 1) && Times32(LinkFirst(c, d).list)
    ensures Bounded(LinkFirst(c, d), d + 1)
  {
    var c' := LinkFirst(c, d);
    ChargePaces(0, c.list[d].(linked := true));
    assert Trail(c'.list, d) == 0;
    forall j | 0 <= j <= |c.list|
      ensures Trail(c'.list, j) < INT_MIN_SUM_OF_IMAGE_SIZE
    {
      if j <= d {
        SameTrail(c.list, c'.list, j);
      } else if d + 1 < j {
        assert !Quiet(c'.list[j - 1]);
      }
    }
  }

  /** Linking keeps every quiet stretch below the limit iff no charge along the way wraps the 32-bit
      accumulator over a buffer that does not interrupt yet. */
  lemma LinkIsExact(cfg: Config, c: Core, k: nat, d: nat, l: nat)
    requires k < |c.list| && Pattern(c.list, d, l) && Bounded(c, l) && Times32(c.list)
    requires k < l == Max(d, k + 1) || k == l == d
    ensures |Link(cfg, c, k).list| == |c.list|
    ensures Below(Link(cfg, c, k).list) <==> LinkFits(cfg, c, k)
    ensures LinkFits(cfg, c, k) ==> Bounded(Link(cfg, c, k), |c.list|)
  {
    if k < l {
      LinkLoopIsExact(cfg, c, k, d);
    } else {
      LinkFirstBounded(c, d);
      LinkLoopIsExact(cfg, LinkFirst(c, d), d, d);
    }
  }

  /** The charged time in list[i..j]: that of buffers that did not interrupt when they were submitted. */
  function Charged(list: seq<Buf>, i: nat, j: nat): nat
    requires i <= j <= |list|
    decreases j
  {
    if i == j then 0 else Charged(list, i, j - 1) + if list[j - 1].noInt then list[j - 1].time else 0
  }

  lemma {:induction false} SameCharged(list: seq<Buf>, list': seq<Buf>, i: nat, j: nat)
    requires i <= j <= |list| && |list'| == |list|
    requires forall k :: 0 <= k < |list| ==> list'[k].noInt == list[k].noInt && list'[k].time == list[k].time
    ensures Charged(list', i, j) == Charged(list, i, j)
    decreases j
  {
    if i < j {
      SameCharged(list, list', i, j - 1);
    }
  }

  /** The limit has been reached by charges up to and with the buffer at j, none before s. */
  ghost predicate Due(list: seq<Buf>, s: nat, j: nat)
    requires j < |list|
  {
    exists i :: s <= i <= j && Reached(list, i, j)
  }

  /** The charges of list[i..j], and of the buffer at j, reach the limit. */
  predicate Reached(list: seq<Buf>, i: nat, j: nat)
    requires i <= j < |list|
  {
    Charged(list, i, j + 1) >= INT_MIN_SUM_OF_IMAGE_SIZE
  }

  lemma StepForcesWhenDue(cfg: Config, c: Core, i: nat, s: nat)
    requires s <= i + 1 < |c.list| && TimesFit(c.list) && c.dur < INT_MIN_SUM_OF_IMAGE_SIZE
    requires c.dur == Charged(c.list, s, i + 1) && !c.list[i + 1].done
    ensures var c' := LinkStep(cfg, c, i);
            var due := c.list[i + 1].noInt && c.dur + c.list[i + 1].time >= INT_MIN_SUM_OF_IMAGE_SIZE;
            && |c'.list| == |c.list| && TimesFit(c'.list) && c'.dur < INT_MIN_SUM_OF_IMAGE_SIZE
            && c'.dur == Charged(c'.list, if due then i + 2 else s, i + 2)
            && (c'.list[i + 1].jmp.ie ==> c.list[i + 1].jmp.ie || Reached(c.list, s, i + 1))
            && forall k :: 0 <= k < |c.list| ==>
                 && c'.list[k].noInt == c.list[k].noInt && c'.list[k].time == c.list[k].time
                 && c'.list[k].done == c.list[k].done && (k != i + 1 ==> c'.list[k].jmp.ie == c.list[k].jmp.ie)
  {
    var c' := LinkStep(cfg, c, i);
    SameCharged(c.list, c'.list, s, i + 2);
  }

  lemma {:induction false} LoopForcesWhenDue(cfg: Config, c: Core, i: nat, s: nat)
    requires s <= i + 1 <= |c.list| && TimesFit(c.list) && c.dur < INT_MIN_SUM_OF_IMAGE_SIZE
    requires c.dur == Charged(c.list, s, i + 1) && forall k :: i < k < |c.list| ==> !c.list[k].done
    ensures var list' := LinkLoop(cfg, c, i).list;
            |list'| == |c.list|
            && forall j :: i < j < |list'| && list'[j].jmp.ie && !c.list[j].jmp.ie ==> Due(c.list, s, j)
    decreases |c.list| - i
  {
    if i + 1 < |c.list| {
      var c' := LinkStep(cfg, c, i);
      var list' := LinkLoop(cfg, c', i + 1).list;
      StepForcesWhenDue(cfg, c, i, s);
      hide LinkStep, TimesFit;
      var s' := if c.list[i + 1].noInt && c.dur + c.list[i + 1].time >= INT_MIN_SUM_OF_IMAGE_SIZE then i + 2 else s;
      LoopForcesWhenDue(cfg, c', i + 1, s');
      hide LinkLoop, Charged;
      forall j | i < j < |list'| && list'[j].jmp.ie && !c.list[j].jmp.ie
        ensures Due(c.list, s, j)
      {
        if j == i + 1 {
          LinkLoopKeepsJmp(cfg, c', i + 1);
          assert Reached(c.list, s, j);
        } else {
          DueBefore(c.list, c'.list, s, s', j);
        }
      }
    }
  }

  lemma DueBefore(list: seq<Buf>, list': seq<Buf>, s: nat, s': nat, j: nat)
    requires j < |list| && |list'| == |list| && s <= s' && Due(list', s', j)
    requires forall k :: 0 <= k < |list| ==> list'[k].noInt == list[k].noInt && list'[k].time == list[k].time
    ensures Due(list, s, j)
  {
    var i :| s' <= i <= j && Reached(list', i, j);
    SameCharged(list, list', i, j + 1);
    assert Reached(list, i, j);
  }

  /** The loop from i on does not touch the IE bit of the buffer at i. */
  lemma {:induction false} LinkLoopKeepsJmp(cfg: Config, c: Core, i: nat)
    requires i < |c.list|
    ensures |LinkLoop(cfg, c, i).list| == |c.list|
    ensures forall j :: 0 <= j <= i ==> LinkLoop(cfg, c, i).list[j].jmp.ie == c.list[j].jmp.ie
    decreases |c.list| - i
  {
    if i + 1 < |c.list| {
      LinkLoopKeepsJmp(cfg, LinkStep(cfg, c, i), i + 1);
    }
  }

  /** Relinking from the first undone buffer counts anew, and makes a buffer interrupt only when the charges
      of it and the buffers in front of it reach the limit. */
  lemma ForcedOnlyWhenDue(cfg: Config, c: Core, d: nat)
    requires d < |c.list| && Pattern(c.list, d, d) && TimesFit(c.list)
    ensures var list' := Link(cfg, c, d).list;
            |list'| == |c.list|
            && forall j :: d <= j < |list'| && list'[j].jmp.ie && !c.list[j].jmp.ie ==> Due(c.list, d, j)
  {
    var c1 := LinkFirst(c, d);
    var s := if c.list[d].noInt && c.list[d].time >= INT_MIN_SUM_OF_IMAGE_SIZE then d + 1 else d;
    SameCharged(c.list, c1.list, d, d + 1);
    LoopForcesWhenDue(cfg, c1, d, s);
    LinkLoopKeepsJmp(cfg, c1, d);
    hide LinkLoop;
    var list' := Link(cfg, c, d).list;
    forall j | d <= j < |list'| && list'[j].jmp.ie && !c.list[j].jmp.ie
      ensures Due(c.list, d, j)
    {
      if j == d {
        assert Reached(c.list, d, d);
      } else {
        DueBefore(c.list, c1.list, d, s, j);
      }
    }
  }

  lemma {:induction false} ShortTimesFit(cfg: Config, c: Core, i: nat)
    requires TimesFit(c.list) && c.dur < INT_MIN_SUM_OF_IMAGE_SIZE
    ensures LoopFits(cfg, c, i) && TimesFit(LinkLoop(cfg, c, i).list)
    decreases |c.list| - i
  {
    if i + 1 < |c.list| {
      ShortTimesFit(cfg, LinkStep(cfg, c, i), i + 1);
    }
  }

  /** Short enough times never wrap. */
  lemma LinkPaced(cfg: Config, c: Core, k: nat, d: nat, l: nat)
    requires k < |c.list| && Pattern(c.list, d, l) && Paced(c, l)
    requires k < l == Max(d, k + 1) || k == l == d
    ensures |Link(cfg, c, k).list| == |c.list| && Paced(Link(cfg, c, k), |c.list|)
  {
    ShortTimesFit(cfg, LinkFirst(c, k), k);
    LinkIsExact(cfg, c, k, d, l);
  }

  // ---------------------------------------------------------------- every step

  lemma TrailAtDone(list: seq<Buf>, d: nat, l: nat)
    requires Pattern(list, d, l)
    ensures Trail(list, d) == 0
  {
  }

  lemma DelinkPaced(cfg: Config, c: Core, d: nat, l: nat)
    requires Sound(cfg, c.list, d, l) && Paced(c, l)
    ensures |Delink(c, d).list| == |c.list| && Paced(Delink(c, d), d)
  {
    DelinkAt(cfg, c, d, l);
    var c' := Delink(c, d);
    assert forall i :: 0 <= i < |c.list| ==> QuieterAt(c.list[i], c'.list[i]);
    TrailAtDone(c'.list, d, d);
    QuieterPaced(c, c', l, d);
  }

  lemma RecoverPaced(cfg: Config, c: Core, d: nat, l: nat)
    requires Sound(cfg, c.list, d, l) && Paced(c, l)
    ensures |Recover(cfg, c, d).list| == |c.list| && Paced(Recover(cfg, c, d), |c.list|)
  {
    DelinkAt(cfg, c, d, l);
    DelinkPaced(cfg, c, d, l);
    if d < |c.list| {
      LinkPaced(cfg, Delink(c, d), d, d, d);
    }
  }

  lemma MarkPaced(cfg: Config, c: Core, r: nat, d: nat, l: nat)
    requires d <= r <= l && Sound(cfg, c.list, d, l) && Paced(c, l)
    ensures |MarkBack(c, r).list| == |c.list| && Paced(MarkBack(c, r), l)
  {
    MarkAt(cfg, c, r, d, l);
    var c' := MarkBack(c, r);
    assert forall i :: 0 <= i < |c.list| ==> QuieterAt(c.list[i], c'.list[i]);
    QuieterPaced(c, c', l, l);
  }

  lemma StatusPaced(c: Core, r: nat, s: Status, l: nat)
    requires r < |c.list| && l <= |c.list| && Paced(c, l)
    ensures Paced(SetStatus(c, r, s), l)
  {
    var c' := SetStatus(c, r, s);
    assert forall i :: 0 <= i < |c.list| ==> QuieterAt(c.list[i], c'.list[i]);
    QuieterPaced(c, c', l, l);
  }

  lemma IsrAtPaced(cfg: Config, c: Core, irq: Irq, r: nat, swAbort: bool, d: nat, l: nat)
    requires !c.working && Sound(cfg, c.list, d, l) && Paced(c, l) && Current(c.list, irq, r)
    ensures var c' := IsrAt(cfg, c, irq, r, swAbort);
            var relinked := irq != IrqAbort || (cfg.encoder && !swAbort);
            |c'.list| == |c.list| && Paced(c', if relinked then |c.list| else r + 1)
  {
    var d' := DoneAfter(irq, r);
    hide MarkBack, UnlinkFrom, Restart, Chain, TailStops, DistinctIds, Paced;
    assert d <= d' <= l;
    MarkAt(cfg, c, d', d, l);
    MarkPaced(cfg, c, d', d, l);
    var c1 := MarkBack(c, d');
    if irq == IrqAbort {
      DelinkPaced(cfg, c1, d', l);
      RecoverPaced(cfg, c1, d', l);
    } else if irq == IrqBusErr || irq == IrqCmdErr {
      var s := if irq == IrqBusErr then StatusBusErr else StatusCmdErr;
      StatusAt(cfg, c1, r, s, d', l);
      StatusPaced(c1, r, s, l);
      RecoverPaced(cfg, SetStatus(c1, r, s), d', l);
    } else {
      RecoverPaced(cfg, c1, d', l);
    }
  }

  /** The invariant together with the pacing bookkeeping. */
  ghost predicate PacedInv(cfg: Config, c: Core) {
    exists d: nat, l: nat :: InvAt(cfg, c, d, l) && Paced(c, l)
  }

  lemma IsrPaced(cfg: Config, c: Core, irq: Irq, rep: Report, swAbort: bool)
    requires PacedInv(cfg, c) && Credible(cfg, c, irq, rep)
    ensures PacedInv(cfg, Isr(cfg, c, irq, rep, swAbort))
  {
    var d: nat, l: nat :| InvAt(cfg, c, d, l) && Paced(c, l);
    var c' := Isr(cfg, c, irq, rep, swAbort);
    if c.list == [] || (cfg.newHw && rep.id >= TOTAL_DISCRETE_CMDBUF_NUM) {
    } else if irq == IrqReset {
      ResetRecovers(cfg, c, d, l);
      FirstUndoneAt(c.list, 0, d, l);
      RecoverPaced(cfg, c.(working := false), d, l);
      assert InvAt(cfg, c', d, |c'.list|);
    } else if irq == IrqJmp {
      JmpPaced(cfg, c, rep.id, d, l);
    } else {
      ErrorPaced(cfg, c, irq, rep, swAbort, d, l);
    }
  }

  lemma JmpPaced(cfg: Config, c: Core, id: nat, d: nat, l: nat)
    requires InvAt(cfg, c, d, l) && Paced(c, l) && c.list != []
    requires Credible(cfg, c, IrqJmp, Report(id, 0)) && (cfg.newHw ==> id < TOTAL_DISCRETE_CMDBUF_NUM)
    ensures PacedInv(cfg, Isr(cfg, c, IrqJmp, Report(id, 0), false))
  {
    var d' := JmpKeeps(cfg, c, id, d, l);
    if d < d' {
      MarkPaced(cfg, c, d', d, l);
    }
    assert InvAt(cfg, Isr(cfg, c, IrqJmp, Report(id, 0), false), d', l);
  }

  lemma ErrorPaced(cfg: Config, c: Core, irq: Irq, rep: Report, swAbort: bool, d: nat, l: nat)
    requires InvAt(cfg, c, d, l) && Paced(c, l)
    requires c.list != [] && !(cfg.newHw && rep.id >= TOTAL_DISCRETE_CMDBUF_NUM)
    requires irq != IrqReset && irq != IrqJmp && Credible(cfg, c, irq, rep)
    ensures PacedInv(cfg, Isr(cfg, c, irq, rep, swAbort))
  {
    var r := Locate(cfg, c.list, irq, rep).value;
    var c1 := Stopped(cfg, c, irq, rep);
    IsrAtPaced(cfg, c1, irq, r, swAbort, d, l);
    ErrorProgress(cfg, c, irq, rep, swAbort, d, l);
    var c', d' := IsrAt(cfg, c1, irq, r, swAbort), DoneAfter(irq, r);
    assert InvAt(cfg, c', d', if irq == IrqAbort && !(cfg.encoder && !swAbort) then d' else |c.list|);
  }

  lemma InsertPaced(c: Core, p: nat, b: Buf, d: nat, l: nat)
    requires Pattern(c.list, d, l) && l <= p <= |c.list| && Paced(c, l)
    requires !b.linked && b.time + INT_MIN_SUM_OF_IMAGE_SIZE <= U32
    ensures Paced(c.(list := Insert(c.list, p, Prepared(b))), l)
  {
    var list' := Insert(c.list, p, Prepared(b));
    assert forall i :: 0 <= i < |list'| ==>
        list'[i] == if i < p then c.list[i] else if i == p then Prepared(b) else c.list[i - 1];
    forall j | 0 <= j <= |list'|
      ensures Trail(list', j) == (if j <= p then Trail(c.list, j) else 0)
    {
      if j <= p {
        SameTrail(c.list, list', j);
      }
    }
  }

  lemma SubmitPaced(cfg: Config, c: Core, b: Buf, probe: Probe)
    requires PacedInv(cfg, c) && CanSubmit(cfg, c, b, probe)
    requires b.time + INT_MIN_SUM_OF_IMAGE_SIZE <= U32
    ensures PacedInv(cfg, Submit(cfg, c, b, probe))
  {
    if Accepts(cfg, c, b, probe) {
      if Preempts(cfg, c, b, probe) && c.working {
        IsrPaced(cfg, c, IrqAbort, probe.abort, true);
      }
      var d, l := PlaceForSubmit(cfg, c, b, probe);
      var c1 := BeforeInsert(cfg, c, b, probe);
      var d1: nat, l1: nat :| InvAt(cfg, c1, d1, l1) && Paced(c1, l1);
      PatternUnique(c1.list, d, l, d1, l1);
      var p := InsertAt(cfg, c, b, probe);
      var c2 := c1.(list := Insert(c1.list, p, Prepared(b)));
      InsertPaced(c1, p, b, d, l);
      LinkAndRunPaced(cfg, c2, p, d, l);
    }
  }

  lemma PatternUnique(list: seq<Buf>, d: nat, l: nat, d': nat, l': nat)
    requires Pattern(list, d, l) && Pattern(list, d', l')
    ensures d == d' && l == l'
  {
    assert d < |list| ==> !list[d].done;
    assert d' < |list| ==> !list[d'].done;
    assert l < |list| ==> !list[l].linked;
    assert l' < |list| ==> !list[l'].linked;
  }

  lemma LinkAndRunPaced(cfg: Config, c: Core, p: nat, d: nat, l: nat)
    requires p < |c.list| && l <= p && Sound(cfg, c.list, d, l) && Paced(c, l)
    requires c.working ==> l == p == |c.list| - 1 && c.regs.ready == c.rdy && c.rdy == (l - d + c.completed) % U32
    requires !c.working ==> l == d && c.rdy == 0 && c.completed == 0
    ensures PacedInv(cfg, LinkAndRun(cfg, c, p))
  {
    if c.working {
      LinkAndRunWorking(cfg, c, p, d);
    } else {
      LinkAndRunIdle(cfg, c, p, d);
    }
    LastLinkedAt(c.list, p, l);
    LinkPaced(cfg, c, LastLinked(c.list, p), d, l);
    var c' := LinkAndRun(cfg, c, p);
    assert InvAt(cfg, c', d, |c'.list|);
  }

  // ---------------------------------------------------------------- release and resume

  lemma {:induction false} ShiftedTrail(list: seq<Buf>, list': seq<Buf>, d: nat, h: nat, k: nat)
    requires h <= |list'| && d <= |list| && |list| - d == |list'| - h && k <= |list| - d
    requires forall i :: 0 <= i < d ==> list[i].done
    requires forall i :: 0 <= i < h ==> list'[i].done
    requires list'[h..] == list[d..]
    ensures Trail(list', h + k) == Trail(list, d + k)
    decreases k
  {
    if k > 0 {
      ShiftedTrail(list, list', d, h, k - 1);
      assert list'[h + k - 1] == list'[h..][k - 1] == list[d..][k - 1] == list[d + k - 1];
    }
  }

  /** Release drops done buffers only: the undone part of the queue is untouched. */
  lemma ReleaseSuffix(c: Core, r: nat, d: nat)
    requires r < d <= |c.list| && forall i :: 0 <= i < |c.list| ==> (c.list[i].done <==> i < d)
    ensures var list' := Release(c, r).list;
            var h := |list'| - (|c.list| - d);
            && h >= 0
            && list'[h..] == c.list[d..]
            && (forall i :: 0 <= i < h ==> list'[i].done)
            && (forall x :: x in list' ==> exists y :: y in c.list && x == y.(needRemove := x.needRemove))
  {
    ReleaseRemoves(c, r);
    ReleasedAreOld(c, r);
    KeptFrom(c.list[..r]);
    hide Release, Kept;
    var head := Kept(c.list[..r]);
    KeptAreDone(c.list, head, r, d);
    if r + 1 < |c.list| {
      DropHead(c.list, head, r + 1, d);
    }
  }

  lemma KeptAreDone(list: seq<Buf>, head: seq<Buf>, r: nat, d: nat)
    requires r < d <= |list| && forall i :: 0 <= i < d ==> list[i].done
    requires forall b :: b in head ==> b in list[..r]
    ensures forall i :: 0 <= i < |head| ==> head[i].done
  {
    forall i | 0 <= i < |head|
      ensures head[i].done
    {
      assert head[i] in list[..r];
    }
  }

  lemma DropHead(list: seq<Buf>, head: seq<Buf>, r: nat, d: nat)
    requires r <= d <= |list| && (forall i :: 0 <= i < d ==> list[i].done)
    requires forall i :: 0 <= i < |head| ==> head[i].done
    ensures var list' := head + list[r..];
            var h := |list'| - (|list| - d);
            h >= 0 && list'[h..] == list[d..] && forall i :: 0 <= i < h ==> list'[i].done
  {
    var list' := head + list[r..];
    var h := |list'| - (|list| - d);
    assert forall i :: |head| <= i < |list'| ==> list'[i] == list[i - |head| + r];
  }

  lemma ReleasePaced(cfg: Config, c: Core, r: nat)
    requires PacedInv(cfg, c) && r < |c.list| && c.list[r].done
    ensures PacedInv(cfg, Release(c, r))
  {
    var d: nat, l: nat :| InvAt(cfg, c, d, l) && Paced(c, l);
    ReleaseKeeps(cfg, c, r);
    var c' := Release(c, r);
    var d': nat, l': nat :| InvAt(cfg, c', d', l');
    ReleasePacedAt(c, r, d, l, d', l');
  }

  lemma ReleasePacedAt(c: Core, r: nat, d: nat, l: nat, d': nat, l': nat)
    requires r < d && Pattern(c.list, d, l) && Paced(c, l) && Pattern(Release(c, r).list, d', l')
    ensures Paced(Release(c, r), l')
  {
    ReleaseSuffix(c, r, d);
    SameDuration(c, r);
    hide Release, Pattern, Paced;
    SuffixKeeps(c, Release(c, r), d, l, |Release(c, r).list| - (|c.list| - d), d', l');
  }

  lemma SameDuration(c: Core, r: nat)
    requires r < |c.list|
    ensures Release(c, r).dur == c.dur
  {
  }

  lemma SuffixKeeps(c: Core, c': Core, d: nat, l: nat, h: nat, d': nat, l': nat)
    requires Pattern(c.list, d, l) && Pattern(c'.list, d', l') && Paced(c, l) && c'.dur == c.dur
    requires h <= |c'.list| && |c.list| - d == |c'.list| - h && c'.list[h..] == c.list[d..]
    requires forall i :: 0 <= i < h ==> c'.list[i].done
    requires forall x :: x in c'.list ==> exists y :: y in c.list && x == y.(needRemove := x.needRemove)
    ensures Paced(c', l')
  {
    hide Pattern, Paced;
    SuffixPattern(c, c', d, l, h, d', l');
    SuffixPaced(c, c', d, l, h);
  }

  lemma SuffixPattern(c: Core, c': Core, d: nat, l: nat, h: nat, d': nat, l': nat)
    requires Pattern(c.list, d, l) && Pattern(c'.list, d', l')
    requires h <= |c'.list| && |c.list| - d == |c'.list| - h && c'.list[h..] == c.list[d..]
    requires forall i :: 0 <= i < h ==> c'.list[i].done
    ensures d' == h && l' == h + l - d
  {
    assert forall i :: h <= i < |c'.list| ==> c'.list[i] == c.list[i - h + d];
    assert d' < |c'.list| ==> !c'.list[d'].done;
    assert l' < |c'.list| ==> !c'.list[l'].linked;
    assert h < |c'.list| ==> !c'.list[h].done;
    var m := h + l - d;
    assert m < |c'.list| ==> !c'.list[m].linked;
    assert h < m ==> c'.list[m - 1].linked;
  }

  lemma SuffixPaced(c: Core, c': Core, d: nat, l: nat, h: nat)
    requires Pattern(c.list, d, l) && Paced(c, l) && c'.dur == c.dur
    requires h <= |c'.list| && |c.list| - d == |c'.list| - h && c'.list[h..] == c.list[d..]
    requires forall i :: 0 <= i < h ==> c'.list[i].done
    requires forall x :: x in c'.list ==> exists y :: y in c.list && x == y.(needRemove := x.needRemove)
    ensures Paced(c', h + l - d)
  {
    forall i | 0 <= i < |c'.list|
      ensures (!c'.list[i].noInt ==> c'.list[i].jmp.ie) && c'.list[i].time + INT_MIN_SUM_OF_IMAGE_SIZE <= U32
    {
      assert c'.list[i] in c'.list;
      var y :| y in c.list && c'.list[i] == y.(needRemove := c'.list[i].needRemove);
    }
    SuffixTrail(c.list, c'.list, d, l, h);
  }

  lemma SuffixTrail(list: seq<Buf>, list': seq<Buf>, d: nat, l: nat, h: nat)
    requires d <= l <= |list| && h <= |list'| && |list| - d == |list'| - h && list'[h..] == list[d..]
    requires forall i :: 0 <= i < d ==> list[i].done
    requires forall i :: 0 <= i < h ==> list'[i].done
    requires forall j :: 0 <= j <= |list| ==> Trail(list, j) < INT_MIN_SUM_OF_IMAGE_SIZE
    ensures Trail(list', h + l - d) == Trail(list, l)
    ensures forall j :: 0 <= j <= |list'| ==> Trail(list', j) < INT_MIN_SUM_OF_IMAGE_SIZE
  {
    ShiftedTrail(list, list', d, h, l - d);
    forall j | 0 <= j <= |list'|
      ensures Trail(list', j) < INT_MIN_SUM_OF_IMAGE_SIZE
    {
      if j <= h {
        assert Trail(list', j) == 0;
      } else {
        ShiftedTrail(list, list', d, h, j - h);
      }
    }
  }

  lemma ResumePacedAt(cfg: Config, c: Core, r: nat, d: nat)
    requires InvAt(cfg, c, d, d) && !c.working && Paced(c, d)
    requires FindById(c.list, c.abortedId) == Some(r)
    ensures |Resume(cfg, c).list| == |c.list| && Paced(Resume(cfg, c), |c.list|)
  {
    if r + 1 < |c.list| {
      LinkPaced(cfg, c, r + 1, d, d);
    }
    hide Link, Chain, DistinctIds, FindById;
  }

  lemma ResumePaced(cfg: Config, c: Core)
    requires PacedInv(cfg, c)
    ensures PacedInv(cfg, Resume(cfg, c))
  {
    var d: nat, l: nat :| InvAt(cfg, c, d, l) && Paced(c, l);
    if !c.working && FindById(c.list, c.abortedId).Some? {
      var r := FindById(c.list, c.abortedId).value;
      ResumeRestarts(cfg, c, r, d);
      ResumePacedAt(cfg, c, r, d);
      hide Resume, Paced, Recovered;
      assert InvAt(cfg, Resume(cfg, c), d, |c.list|);
    }
  }

  // ---------------------------------------------------------------- every run

  /** Submissions only of buffers whose time cannot wrap the accumulator. */
  predicate TimeFits(s: Step) {
    s.StepSubmit? ==> s.b.time + INT_MIN_SUM_OF_IMAGE_SIZE <= U32
  }

  lemma StepPaced(cfg: Config, c: Core, s: Step)
    requires PacedInv(cfg, c) && Enabled(cfg, c, s) && TimeFits(s)
    ensures PacedInv(cfg, Next(cfg, c, s))
  {
    match s
    case StepSubmit(b, probe) => SubmitPaced(cfg, c, b, probe);
    case StepIsr(irq, rep, swAbort) => IsrPaced(cfg, c, irq, rep, swAbort);
    case StepRelease(r) => ReleasePaced(cfg, c, r);
    case StepSuspend(rep) =>
      if c.working {
        IsrPaced(cfg, c, IrqAbort, rep, true);
      }
    case StepResume => ResumePaced(cfg, c);
  }

  lemma {:induction false} RunPaced(cfg: Config, c: Core, steps: seq<Step>)
    requires PacedInv(cfg, c) && RunEnabled(cfg, c, steps) && forall s :: s in steps ==> TimeFits(s)
    ensures PacedInv(cfg, Run(cfg, c, steps))
    decreases |steps|
  {
    if steps != [] {
      StepPaced(cfg, c, steps[0]);
      RunPaced(cfg, Next(cfg, c, steps[0]), steps[1..]);
    }
  }

  lemma {:induction false} QuietStretch(list: seq<Buf>, i: nat, j: nat)
    requires i <= j <= |list| && forall k :: i <= k < j ==> Quiet(list[k])
    ensures Work(list, i, j) <= Trail(list, j)
    decreases j
  {
    if i < j {
      QuietStretch(list, i, j - 1);
    }
  }

  /** In every reachable state, any contiguous stretch of linked undone buffers that do not interrupt
      holds less work than INT_MIN_SUM_OF_IMAGE_SIZE. */
  lemma InterruptsArePaced(cfg: Config, steps: seq<Step>, i: nat, j: nat)
    requires RunEnabled(cfg, BOOT, steps) && forall s :: s in steps ==> TimeFits(s)
    requires i <= j <= |Run(cfg, BOOT, steps).list|
    requires forall k :: i <= k < j ==> Quiet(Run(cfg, BOOT, steps).list[k])
    ensures Work(Run(cfg, BOOT, steps).list, i, j) < INT_MIN_SUM_OF_IMAGE_SIZE
  {
    assert InvAt(cfg, BOOT, 0, 0) && Paced(BOOT, 0);
    RunPaced(cfg, BOOT, steps);
    QuietStretch(Run(cfg, BOOT, steps).list, i, j);
  }
}
