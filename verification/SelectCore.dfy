/** Which core a normal-priority buffer goes to when several cores of one type are there. The driver
    goes round the cores up to five times, each time from where the last round left off. */
module SelectCore {
  import opened Wrappers
  import opened Cyclic
  import opened JmpWords
  import opened VcmdSpec
  import VcmdPacing

  /** One core as select_vcmd sees it: its queue, and what its hardware reports. execAddr is the address
      older hardware is executing. */
  datatype Candidate = Candidate(cfg: Config, c: Core, probe: Probe, execAddr: nat)

  predicate Supported(mask: bv32, i: nat) {
    mask != 0 && i < 32 && (mask >> i) & 1 == 1
  }

  // ---------------------------------------------------------------- what each round looks for

  predicate HasNothing(d: Candidate) {
    d.c.list == []
  }

  predicate HasFinished(d: Candidate) {
    d.c.list == [] || d.c.list[|d.c.list| - 1].done
  }

  predicate HasCaughtUp(d: Candidate) {
    d.c.list == [] || d.c.rdy == Executed(d.cfg, d.c, d.probe)
  }

  predicate IsUnreadable(d: Candidate) {
    ProbeFails(d.cfg, d.probe)
  }

  /** calculate_executing_time_after_node: a 32-bit sum to the end of the queue. */
  function TimeFrom(list: seq<Buf>, k: nat): (t: nat)
    ensures t < U32
    decreases |list| - k
  {
    if k < |list| then (list[k].time + TimeFrom(list, k + 1)) % U32 else 0
  }

  function FirstLinkedUndone(list: seq<Buf>, k: nat): (r: nat)
    requires k <= |list|
    ensures k <= r <= |list| && (r < |list| ==> list[r].linked && !list[r].done)
    ensures forall i :: k <= i < r ==> !list[i].linked || list[i].done
    decreases |list| - k
  {
    if k < |list| && !(list[k].linked && !list[k].done) then FirstLinkedUndone(list, k + 1) else k
  }

  predicate Covers(b: Buf, addr: nat) {
    b.addr <= addr < b.addr + b.size
  }

  /** get_cmdbuf_node_in_list_by_addr: the first buffer that holds the address, finished or not. */
  function FindCovering(list: seq<Buf>, addr: nat, k: nat): (r: nat)
    requires k <= |list|
    ensures k <= r <= |list| && (r < |list| ==> Covers(list[r], addr))
    ensures forall i :: k <= i < r ==> !Covers(list[i], addr)
    decreases |list| - k
  {
    if k < |list| && !Covers(list[k], addr) then FindCovering(list, addr, k + 1) else k
  }

  /** The first core from i on that has the id in its queue, and where. */
  function FindAnywhere(ds: seq<Candidate>, id: nat, i: nat): (r: Option<(nat, nat)>)
    requires i <= |ds|
    ensures r.Some? ==> r.value.0 < |ds| && FindById(ds[r.value.0].c.list, id) == Some(r.value.1)
    ensures r.Some? ==> i <= r.value.0 && forall q :: i <= q < r.value.0 ==> FindById(ds[q].c.list, id) == None
    ensures r.None? ==> forall q :: i <= q < |ds| ==> FindById(ds[q].c.list, id) == None
    decreases |ds| - i
  {
    if i == |ds| then None
    else match FindById(ds[i].c.list, id)
      case Some(k) => Some((i, k))
      case None => FindAnywhere(ds, id, i + 1)
  }

  /** The time core i still needs, from the buffer it reports. Newer hardware reports an id, which is
      looked up in the table of all live buffers: it may be queued on any core, or be reserved and queued
      nowhere; spare holds the times of the latter. */
  function Remaining(ds: seq<Candidate>, spare: map<nat, nat>, i: nat): (t: nat)
    requires i < |ds|
    ensures t < U32
  {
    var d := ds[i];
    if d.cfg.newHw then
      match FindAnywhere(ds, d.probe.execId, 0)
      case Some((q, k)) => TimeFrom(ds[q].c.list, k)
      case None =>
        if d.probe.execId in spare then spare[d.probe.execId] % U32
        else TimeFrom(d.c.list, FirstLinkedUndone(d.c.list, 0))
    else
      TimeFrom(d.c.list, FindCovering(d.c.list, d.execAddr, 0))
  }

  /** The driver's 32-bit sum is the sum of the times to the end of the queue. */
  lemma {:induction false} TimeIsSum(list: seq<Buf>, k: nat)
    requires k <= |list|
    ensures TimeFrom(list, k) == VcmdPacing.Work(list, k, |list|) % U32
    decreases |list| - k
  {
    if k < |list| {
      TimeIsSum(list, k + 1);
      WorkFromFront(list, k, |list|);
      SumMod(list[k].time, VcmdPacing.Work(list, k + 1, |list|));
    }
  }

  lemma {:induction false} WorkFromFront(list: seq<Buf>, i: nat, j: nat)
    requires i < j <= |list|
    ensures VcmdPacing.Work(list, i, j) == list[i].time + VcmdPacing.Work(list, i + 1, j)
    decreases j
  {
    if i + 1 < j {
      WorkFromFront(list, i, j - 1);
    }
  }

  lemma SumMod(x: nat, y: nat)
    ensures (x + y % U32) % U32 == (x + y) % U32
  {
  }

  /** A buffer with this id is queued at index k of core q, and on no core before q. */
  ghost predicate QueuedFirst(ds: seq<Candidate>, id: nat, q: nat, k: nat) {
    && q < |ds| && k < |ds[q].c.list| && ds[q].c.list[k].id == id
    && (forall i :: 0 <= i < k ==> ds[q].c.list[i].id != id)
    && forall p, i :: 0 <= p < q && 0 <= i < |ds[p].c.list| ==> ds[p].c.list[i].id != id
  }

  ghost predicate QueuedNowhere(ds: seq<Candidate>, id: nat) {
    forall p, i :: 0 <= p < |ds| && 0 <= i < |ds[p].c.list| ==> ds[p].c.list[i].id != id
  }

  /** k is the first linked undone buffer, or the end. */
  predicate UndoneFirst(list: seq<Buf>, k: nat) {
    && k <= |list| && (k < |list| ==> list[k].linked && !list[k].done)
    && forall j :: 0 <= j < k ==> !list[j].linked || list[j].done
  }

  /** k is the first buffer that holds the address, or the end. */
  predicate HoldsFirst(list: seq<Buf>, addr: nat, k: nat) {
    && k <= |list| && (k < |list| ==> list[k].addr <= addr < list[k].addr + list[k].size)
    && forall j :: 0 <= j < k ==> !(list[j].addr <= addr < list[j].addr + list[j].size)
  }

  /** The work core i still has to do, as the driver reckons it: all times, finished or not, from some
      buffer to the end of a queue. On newer hardware this is the buffer with the reported id, wherever it
      is queued; a reserved one that is not queued counts alone; for an id that is not live the work starts
      at the core's first linked undone buffer. On older hardware it is the first buffer of the core's queue
      that holds the reported address; without one nothing is left. */
  ghost predicate Needs(ds: seq<Candidate>, spare: map<nat, nat>, i: nat, t: nat)
    requires i < |ds|
  {
    var d := ds[i];
    var list, id := d.c.list, d.probe.execId;
    if d.cfg.newHw then
      || (exists q: nat, k: nat :: QueuedFirst(ds, id, q, k)
                         && t == VcmdPacing.Work(ds[q].c.list, k, |ds[q].c.list|) % 0x1_0000_0000)
      || (QueuedNowhere(ds, id) && id in spare && t == spare[id] % 0x1_0000_0000)
      || (QueuedNowhere(ds, id) && id !in spare
          && exists k: nat :: UndoneFirst(list, k) && t == VcmdPacing.Work(list, k, |list|) % 0x1_0000_0000)
    else
      exists k: nat :: HoldsFirst(list, d.execAddr, k) && t == VcmdPacing.Work(list, k, |list|) % 0x1_0000_0000
  }

  lemma {:induction false} FirstIsFirst(list: seq<Buf>, id: nat)
    ensures FindById(list, id).Some? ==> forall i :: 0 <= i < FindById(list, id).value ==> list[i].id != id
  {
    if list != [] && list[0].id != id {
      FirstIsFirst(list[1..], id);
      forall i | 0 <= i < |list| && FindById(list, id).Some? && i < FindById(list, id).value
        ensures list[i].id != id
      {
        assert i > 0 ==> list[i] == list[1..][i - 1];
      }
    }
  }

  /** What the driver computes is that work. */
  lemma RemainingIsNeeded(ds: seq<Candidate>, spare: map<nat, nat>, i: nat)
    requires i < |ds|
    ensures Needs(ds, spare, i, Remaining(ds, spare, i))
  {
    var d := ds[i];
    var list, id := d.c.list, d.probe.execId;
    hide TimeFrom, FindCovering, FirstLinkedUndone;
    if d.cfg.newHw {
      var found := FindAnywhere(ds, id, 0);
      if found.Some? {
        var (q, k) := found.value;
        FirstIsFirst(ds[q].c.list, id);
        TimeIsSum(ds[q].c.list, k);
        assert QueuedFirst(ds, id, q, k);
      } else {
        TimeIsSum(list, FirstLinkedUndone(list, 0));
        assert UndoneFirst(list, FirstLinkedUndone(list, 0));
      }
    } else {
      var k := FindCovering(list, d.execAddr, 0);
      TimeIsSum(list, k);
      assert forall j :: 0 <= j < k ==> !Covers(list[j], d.execAddr);
      assert HoldsFirst(list, d.execAddr, k);
    }
  }

  /** The work is determined. */
  lemma NeedsIsUnique(ds: seq<Candidate>, spare: map<nat, nat>, i: nat, t: nat, t': nat)
    requires i < |ds| && Needs(ds, spare, i, t) && Needs(ds, spare, i, t')
    ensures t == t'
  {
    var d := ds[i];
    var list, id := d.c.list, d.probe.execId;
    hide VcmdPacing.Work;
    if d.cfg.newHw && !QueuedNowhere(ds, id) {
      var q: nat, k: nat :| QueuedFirst(ds, id, q, k) && t == VcmdPacing.Work(ds[q].c.list, k, |ds[q].c.list|) % U32;
      var q': nat, k': nat :| QueuedFirst(ds, id, q', k')
                              && t' == VcmdPacing.Work(ds[q'].c.list, k', |ds[q'].c.list|) % U32;
      assert q == q';
    } else if d.cfg.newHw {
      assert forall q: nat, k: nat :: !QueuedFirst(ds, id, q, k);
    }
  }

  /** A core that reports a buffer of its own queue, and of no other, needs the time from there on. */
  lemma OwnReportCounts(ds: seq<Candidate>, spare: map<nat, nat>, i: nat, k: nat)
    requires i < |ds| && ds[i].cfg.newHw && FindById(ds[i].c.list, ds[i].probe.execId) == Some(k)
    requires forall q :: 0 <= q < |ds| && q != i ==> FindById(ds[q].c.list, ds[i].probe.execId) == None
    ensures Remaining(ds, spare, i) == TimeFrom(ds[i].c.list, k)
  {
  }

  datatype Round = Nothing | Finished | CaughtUp | Unreadable

  /** Core i is supported and is what the round looks for. */
  predicate Meets(ds: seq<Candidate>, mask: bv32, round: Round, i: nat)
    requires i < |ds|
  {
    Supported(mask, i)
    && match round
       case Nothing => HasNothing(ds[i])
       case Finished => HasFinished(ds[i])
       case CaughtUp => HasCaughtUp(ds[i])
       case Unreadable => IsUnreadable(ds[i])
  }

  // ---------------------------------------------------------------- cyclic order

  ghost predicate NoneMeets(ds: seq<Candidate>, mask: bv32, round: Round) {
    forall i :: 0 <= i < |ds| ==> !Meets(ds, mask, round, i)
  }

  /** r is the first core from start on, in cyclic order, that the round looks for. */
  ghost predicate FirstMeeting(ds: seq<Candidate>, mask: bv32, round: Round, start: nat, r: nat)
    requires start < |ds|
  {
    && r < |ds| && Meets(ds, mask, round, r)
    && forall i :: 0 <= i < |ds| && Ahead(start, i, |ds|) < Ahead(start, r, |ds|) ==> !Meets(ds, mask, round, i)
  }

  /** Core r beats core i: less time, or as much and later in cyclic order. */
  predicate Beats(ds: seq<Candidate>, spare: map<nat, nat>, start: nat, r: nat, i: nat)
    requires start < |ds| && r < |ds| && i < |ds|
  {
    Remaining(ds, spare, r) < Remaining(ds, spare, i)
    || (Remaining(ds, spare, r) == Remaining(ds, spare, i) && Ahead(start, i, |ds|) < Ahead(start, r, |ds|))
  }

  /** r beats every other supported core of the first k from start on. */
  ghost predicate LeastAmong(ds: seq<Candidate>, spare: map<nat, nat>, mask: bv32, start: nat, k: nat, r: nat)
    requires start < |ds|
  {
    && r < |ds| && Supported(mask, r) && Ahead(start, r, |ds|) < k
    && forall i :: 0 <= i < |ds| && i != r && Supported(mask, i) && Ahead(start, i, |ds|) < k ==>
         Beats(ds, spare, start, r, i)
  }

  ghost predicate NoneSupported(ds: seq<Candidate>, mask: bv32) {
    forall i :: 0 <= i < |ds| ==> !Supported(mask, i)
  }

  /** A core; failure, because a core could not be read; or, for a mask that names no core, the pointer
      the driver never set. */
  datatype Outcome = Selected(core: nat) | Failed | Unset

  /** The choice select_vcmd has to make, and where it leaves the position. */
  ghost predicate Chosen(ds: seq<Candidate>, spare: map<nat, nat>, mask: bv32, start: nat, r: Outcome, pos: nat)
    requires start < |ds|
  {
    if !NoneMeets(ds, mask, Nothing) then
      r.Selected? && FirstMeeting(ds, mask, Nothing, start, r.core) && pos == Following(r.core, |ds|)
    else if !NoneMeets(ds, mask, Finished) then
      r.Selected? && FirstMeeting(ds, mask, Finished, start, r.core) && pos == Following(r.core, |ds|)
    else if !NoneMeets(ds, mask, CaughtUp) then
      r.Selected? && FirstMeeting(ds, mask, CaughtUp, start, r.core) && pos == Following(r.core, |ds|)
    else if !NoneMeets(ds, mask, Unreadable) then
      r.Failed? && FirstMeeting(ds, mask, Unreadable, start, pos)
    else if NoneSupported(ds, mask) then
      r.Unset? && pos == start
    else
      r.Selected? && LeastAmong(ds, spare, mask, start, |ds|, r.core) && pos == start
  }

  lemma FirstMeetingUnique(ds: seq<Candidate>, mask: bv32, round: Round, start: nat, r: nat, r': nat)
    requires start < |ds| && FirstMeeting(ds, mask, round, start, r) && FirstMeeting(ds, mask, round, start, r')
    ensures r == r'
  {
    if Ahead(start, r, |ds|) == Ahead(start, r', |ds|) {
      AheadInjective(start, r, r', |ds|);
    }
  }

  lemma LeastUnique(ds: seq<Candidate>, spare: map<nat, nat>, mask: bv32, start: nat, r: nat, r': nat)
    requires start < |ds|
    requires LeastAmong(ds, spare, mask, start, |ds|, r) && LeastAmong(ds, spare, mask, start, |ds|, r')
    ensures r == r'
  {
    hide Remaining;
  }

  /** The choice and the position after it are determined by the queues, the reports and the mask. */
  lemma ChosenUnique(ds: seq<Candidate>, spare: map<nat, nat>, mask: bv32, start: nat,
                     r: Outcome, pos: nat, r': Outcome, pos': nat)
    requires start < |ds| && Chosen(ds, spare, mask, start, r, pos) && Chosen(ds, spare, mask, start, r', pos')
    ensures r == r' && pos == pos'
  {
    if !NoneMeets(ds, mask, Nothing) {
      FirstMeetingUnique(ds, mask, Nothing, start, r.core, r'.core);
    } else if !NoneMeets(ds, mask, Finished) {
      FirstMeetingUnique(ds, mask, Finished, start, r.core, r'.core);
    } else if !NoneMeets(ds, mask, CaughtUp) {
      FirstMeetingUnique(ds, mask, CaughtUp, start, r.core, r'.core);
    } else if !NoneMeets(ds, mask, Unreadable) {
      FirstMeetingUnique(ds, mask, Unreadable, start, pos, pos');
    } else if !NoneSupported(ds, mask) {
      LeastUnique(ds, spare, mask, start, r.core, r'.core);
    }
  }

  /** With nothing empty, finished or caught up among the supported cores, and every report readable, the
      chosen core has the least work left of all supported ones, and less than those behind it in cyclic
      order. */
  lemma ChosenHasLeastWork(ds: seq<Candidate>, spare: map<nat, nat>, mask: bv32, start: nat, r: Outcome, pos: nat,
                           i: nat, mine: nat, other: nat)
    requires start < |ds| && Chosen(ds, spare, mask, start, r, pos) && r.Selected? && i < |ds| && i != r.core
    requires NoneMeets(ds, mask, Nothing) && NoneMeets(ds, mask, Finished) && NoneMeets(ds, mask, CaughtUp)
    requires Supported(mask, i) && r.core < |ds| && Needs(ds, spare, r.core, mine) && Needs(ds, spare, i, other)
    ensures mine <= other && (Ahead(start, r.core, |ds|) < Ahead(start, i, |ds|) ==> mine < other)
  {
    RemainingIsNeeded(ds, spare, i);
    RemainingIsNeeded(ds, spare, r.core);
    hide Needs, Remaining;
    NeedsIsUnique(ds, spare, i, other, Remaining(ds, spare, i));
    NeedsIsUnique(ds, spare, r.core, mine, Remaining(ds, spare, r.core));
    assert Beats(ds, spare, start, r.core, i);
  }

  /** A mask of one bit supports that core and no other. */
  lemma OneBitMask(i: nat, j: nat)
    requires i < 32
    ensures Supported(1 << i, j) <==> j == i
  {
    if j < 32 {
      OneBit(i as bv32, j as bv32);
    }
  }

  lemma OneBit(i: bv32, j: bv32)
    requires i < 32 && j < 32
    ensures ((1 as bv32 << i) >> j) & 1 == 1 <==> i == j
    ensures (1 as bv32) << i != 0
  {
  }

  /** The choice always respects the mask, and is undefined iff the mask names no core. */
  lemma ChosenIsSupported(ds: seq<Candidate>, spare: map<nat, nat>, mask: bv32, start: nat, r: Outcome, pos: nat)
    requires start < |ds| && Chosen(ds, spare, mask, start, r, pos)
    ensures pos < |ds| && (r.Selected? ==> r.core < |ds| && Supported(mask, r.core))
    ensures r.Unset? <==> NoneSupported(ds, mask)
  {
  }

  /** With one core the choice fails exactly when the single-core submission of VcmdSpec rejects the
      buffer for its probe. */
  lemma OneCoreAgrees(d: Candidate, spare: map<nat, nat>, mask: bv32, b: Buf, r: Outcome, pos: nat)
    requires Supported(mask, 0) && Chosen([d], spare, mask, 0, r, pos)
    requires b.jmp.opcode == JMP_OPCODE
    ensures r == (if Accepts(d.cfg, d.c, b, d.probe) then Selected(0) else Failed)
    ensures pos == 0
  {
    var ds := [d];
    assert forall round :: NoneMeets(ds, mask, round) <==> !Meets(ds, mask, round, 0);
  }

  // ---------------------------------------------------------------- the loops

  class Selector {
    var position: nat
    const totals: array<nat>

    constructor (n: nat)
      ensures position == 0 && totals.Length == n && fresh(totals)
    {
      position := 0;
      totals := new nat[n](_ => 0);
    }

    /** One of the first three rounds. */
    method Search(ds: seq<Candidate>, mask: bv32, round: Round) returns (found: bool, r: nat)
      requires position < |ds| && !round.Unreadable?
      modifies this`position
      ensures found ==> FirstMeeting(ds, mask, round, old(position), r) && position == Following(r, |ds|)
      ensures !found ==> NoneMeets(ds, mask, round) && position == old(position)
    {
      var counter := 0;
      ghost var start := position;
      while counter < |ds|
        invariant counter <= |ds| && At(start, counter, position, |ds|)
        invariant forall i :: 0 <= i < |ds| && Ahead(start, i, |ds|) < counter ==> !Meets(ds, mask, round, i)
      {
        StepsAhead(start, counter, position, |ds|);
        r := position;
        position := Following(position, |ds|);
        if Meets(ds, mask, round, r) {
          return true, r;
        }
        OneFurther(ds, mask, round, start, counter, r);
        counter := counter + 1;
      }
      return false, 0;
    }

    /** The round that adds up the remaining times; it stops at a core that cannot be read. */
    method AddTimes(ds: seq<Candidate>, spare: map<nat, nat>, mask: bv32) returns (ok: bool)
      requires position < |ds| == totals.Length
      modifies this`position, totals
      ensures ok ==> NoneMeets(ds, mask, Unreadable) && position == old(position)
      ensures ok ==> forall i :: 0 <= i < |ds| && Supported(mask, i) ==> totals[i] == Remaining(ds, spare, i)
      ensures !ok ==> FirstMeeting(ds, mask, Unreadable, old(position), position)
    {
      hide Remaining;
      var counter := 0;
      ghost var start := position;
      while counter < |ds|
        invariant counter <= |ds| && At(start, counter, position, |ds|)
        invariant forall i :: 0 <= i < |ds| && Ahead(start, i, |ds|) < counter ==> !Meets(ds, mask, Unreadable, i)
        invariant forall i :: 0 <= i < |ds| && Ahead(start, i, |ds|) < counter && Supported(mask, i) ==>
                    totals[i] == Remaining(ds, spare, i)
      {
        StepsAhead(start, counter, position, |ds|);
        if Supported(mask, position) {
          if IsUnreadable(ds[position]) {
            return false;
          }
          totals[position] := Remaining(ds, spare, position);
        }
        OneFurther(ds, mask, Unreadable, start, counter, position);
        position, counter := Following(position, |ds|), counter + 1;
      }
      return true;
    }

    /** The round that picks the least total, if the mask names a core at all. */
    method PickLeast(ds: seq<Candidate>, spare: map<nat, nat>, mask: bv32) returns (r: Outcome)
      requires position < |ds| == totals.Length
      requires forall i :: 0 <= i < |ds| && Supported(mask, i) ==> totals[i] == Remaining(ds, spare, i)
      modifies this`position
      ensures position == old(position)
      ensures if NoneSupported(ds, mask) then r.Unset?
              else r.Selected? && LeastAmong(ds, spare, mask, position, |ds|, r.core)
    {
      hide Remaining;
      var counter, least := 0, 0xFFFF_FFFF;
      ghost var start := position;
      r := Unset;
      while counter < |ds|
        invariant counter <= |ds| && At(start, counter, position, |ds|)
        invariant r.Unset? || r.Selected?
        invariant r.Unset? ==> least == 0xFFFF_FFFF
        invariant r.Unset? ==> forall i :: 0 <= i < |ds| && Ahead(start, i, |ds|) < counter ==> !Supported(mask, i)
        invariant r.Selected? ==> LeastAmong(ds, spare, mask, start, counter, r.core)
        invariant r.Selected? ==> least == Remaining(ds, spare, r.core)
      {
        StepsAhead(start, counter, position, |ds|);
        LeastStep(ds, spare, mask, start, counter, position);
        if Supported(mask, position) && totals[position] <= least {
          least, r := totals[position], Selected(position);
        }
        position, counter := Following(position, |ds|), counter + 1;
      }
    }

    /** select_vcmd for normal priority. */
    method SelectNormal(ds: seq<Candidate>, spare: map<nat, nat>, mask: bv32) returns (r: Outcome)
      requires position < |ds| == totals.Length
      modifies this`position, totals
      ensures Chosen(ds, spare, mask, old(position), r, position)
    {
      var found, core := Search(ds, mask, Nothing);
      if !found {
        found, core := Search(ds, mask, Finished);
      }
      if !found {
        found, core := Search(ds, mask, CaughtUp);
      }
      if found {
        return Selected(core);
      }
      found := AddTimes(ds, spare, mask);
      if !found {
        return Failed;
      }
      r := PickLeast(ds, spare, mask);
    }
  }

  /** One core further: it beats the best so far, or stays behind it, or is the first. */
  lemma LeastStep(ds: seq<Candidate>, spare: map<nat, nat>, mask: bv32, start: nat, k: nat, pos: nat)
    requires start < |ds| && k < |ds| && At(start, k, pos, |ds|)
    ensures forall i :: 0 <= i < |ds| && Ahead(start, i, |ds|) < k + 1 ==> Ahead(start, i, |ds|) < k || i == pos
    ensures forall r: nat :: LeastAmong(ds, spare, mask, start, k, r)
                             && (!Supported(mask, pos) || Remaining(ds, spare, r) < Remaining(ds, spare, pos))
              ==> LeastAmong(ds, spare, mask, start, k + 1, r)
    ensures forall r: nat :: LeastAmong(ds, spare, mask, start, k, r)
                             && Supported(mask, pos) && Remaining(ds, spare, pos) <= Remaining(ds, spare, r)
              ==> LeastAmong(ds, spare, mask, start, k + 1, pos)
  {
    hide Remaining;
    StepsAhead(start, k, pos, |ds|);
    forall i | 0 <= i < |ds| && Ahead(start, i, |ds|) < k + 1
      ensures Ahead(start, i, |ds|) < k || i == pos
    {
      if Ahead(start, i, |ds|) == k {
        AheadInjective(start, i, pos, |ds|);
      }
    }
  }

  lemma OneFurther(ds: seq<Candidate>, mask: bv32, round: Round, start: nat, counter: nat, pos: nat)
    requires start < |ds| && counter < |ds| && At(start, counter, pos, |ds|) && !Meets(ds, mask, round, pos)
    requires forall i :: 0 <= i < |ds| && Ahead(start, i, |ds|) < counter ==> !Meets(ds, mask, round, i)
    ensures forall i :: 0 <= i < |ds| && Ahead(start, i, |ds|) < counter + 1 ==> !Meets(ds, mask, round, i)
  {
    StepsAhead(start, counter, pos, |ds|);
    forall i | 0 <= i < |ds| && Ahead(start, i, |ds|) < counter + 1
      ensures !Meets(ds, mask, round, i)
    {
      if Ahead(start, i, |ds|) == counter {
        AheadInjective(start, i, pos, |ds|);
      }
    }
  }
}
