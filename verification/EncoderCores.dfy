/** Reserving several encoder cores at once. A request packs the number of cores still missing (bits 31
    to 28) and the mask of cores already held (bits 7 to 0) into one word, and keeps what it holds while
    it sleeps. */
module EncoderCores {
  import opened Wrappers

  const MAX_CORES: nat := 8

  /** 1 << i for the eight cores a mask has room for. */
  function Flag(i: nat): bv32 {
    match i
    case 0 => 1 case 1 => 2 case 2 => 4 case 3 => 8
    case 4 => 16 case 5 => 32 case 6 => 64 case 7 => 128
    case _ => 0
  }

  predicate On(w: bv32, flag: bv32) {
    w & flag != 0
  }

  predicate Bit(w: bv32, i: nat) {
    On(w, Flag(i))
  }

  /** The cores in a mask. */
  function Held(w: bv32): (s: set<nat>)
    ensures forall i :: i in s <==> 0 <= i < MAX_CORES && Bit(w, i)
  {
    set i: nat | i < MAX_CORES && Bit(w, i)
  }

  function Count(w: bv32): nat {
    (w >> 28) as nat
  }

  /** The number of cores a client asks for, less one in bits 30 to 28. */
  function Requested(info: bv32): nat {
    ((info >> 28) & 7) as nat + 1
  }

  function Initial(info: bv32): bv32 {
    (((info >> 28) & 7) + 1) << 28
  }

  /** One core more, one missing less. */
  function Take(tmp: bv32, i: nat): bv32 {
    TakeFlag(tmp, Flag(i))
  }

  function TakeFlag(tmp: bv32, f: bv32): bv32 {
    ((((tmp >> 28) - 1) << 28) | (tmp & 0xFF)) | f
  }

  /** The word a client gets back: the core that completed the request, and the mask. */
  function Granted(tmp: bv32, core: bv32): bv32 {
    (core << 16) | (tmp & 0xFF)
  }

  // ---------------------------------------------------------------- bits

  lemma InitialHoldsNothing(info: bv32)
    ensures Count(Initial(info)) == Requested(info) && Held(Initial(info)) == {}
  {
    var x := (info >> 28) & 7;
    assert x <= 7;
    assert (x + 1) << 28 >> 28 == x + 1;
    forall i: nat | i < MAX_CORES
      ensures !Bit(Initial(info), i)
    {
    }
  }

  lemma TakeBit(tmp: bv32, i: nat, j: nat)
    requires i < MAX_CORES && j < MAX_CORES
    ensures Bit(Take(tmp, i), j) <==> Bit(tmp, j) || j == i
  {
    FlagsDiffer(i, j);
    FlagsDiffer(j, j);
    hide On, Flag, TakeFlag;
    TakeMask(tmp, Flag(i), Flag(j));
  }

  lemma FlagsDiffer(i: nat, j: nat)
    requires i < MAX_CORES && j < MAX_CORES
    ensures Flag(i) <= 0xFF && Flag(i) != 0
    ensures On(Flag(i), Flag(j)) <==> i == j
  {
  }

  lemma TakeMask(tmp: bv32, f: bv32, g: bv32)
    requires f <= 0xFF && g <= 0xFF
    ensures On(TakeFlag(tmp, f), g) <==> On(tmp, g) || On(f, g)
  {
    TakeBits(tmp, f, g);
    hide TakeFlag;
    OrBits(tmp & g, f & g);
  }

  lemma TakeBits(tmp: bv32, f: bv32, g: bv32)
    requires f <= 0xFF && g <= 0xFF
    ensures TakeFlag(tmp, f) & g == (tmp & g) | (f & g)
  {
  }

  lemma OrBits(a: bv32, b: bv32)
    ensures a | b != 0 <==> a != 0 || b != 0
  {
  }

  lemma TakeCount(tmp: bv32, i: nat)
    requires i < MAX_CORES && Count(tmp) > 0
    ensures Count(Take(tmp, i)) == Count(tmp) - 1
  {
    FlagsDiffer(i, i);
    TakeTop(tmp, Flag(i));
    assert tmp >> 28 != 0;
    assert ((tmp >> 28) - 1) as nat == (tmp >> 28) as nat - 1;
  }

  lemma TakeTop(tmp: bv32, f: bv32)
    requires f <= 0xFF && tmp >> 28 != 0
    ensures TakeFlag(tmp, f) >> 28 == (tmp >> 28) - 1
  {
  }

  /** Taking a core that was not held keeps the sum of held and missing. */
  lemma TakeConserves(tmp: bv32, i: nat)
    requires i < MAX_CORES && i !in Held(tmp) && Count(tmp) > 0
    ensures Held(Take(tmp, i)) == Held(tmp) + {i}
    ensures Count(Take(tmp, i)) + |Held(Take(tmp, i))| == Count(tmp) + |Held(tmp)|
  {
    forall j: nat | j < MAX_CORES
      ensures j in Held(Take(tmp, i)) <==> j in Held(tmp) || j == i
    {
      TakeBit(tmp, i, j);
    }
    assert Held(Take(tmp, i)) == Held(tmp) + {i};
    TakeCount(tmp, i);
  }

  /** The word handed back names the cores the request holds. */
  lemma GrantedHolds(tmp: bv32, core: bv32)
    ensures Held(Granted(tmp, core)) == Held(tmp)
  {
    forall j: nat | j < MAX_CORES
      ensures Bit(Granted(tmp, core), j) <==> Bit(tmp, j)
    {
      FlagsDiffer(j, j);
      hide On, Flag, Granted;
      GrantedMask(tmp, core, Flag(j));
    }
    hide Bit;
  }

  /** The bits above the mask name the core that completed the request. */
  lemma GrantedNames(tmp: bv32, core: bv32)
    requires core <= 0xFFFF
    ensures Granted(tmp, core) >> 16 == core
  {
  }

  lemma GrantedMask(tmp: bv32, core: bv32, g: bv32)
    requires g <= 0xFF
    ensures On(Granted(tmp, core), g) <==> On(tmp, g)
  {
  }

  // ---------------------------------------------------------------- reserving and releasing

  /** The loop of GetWorkableCore from core i on: the cores, the word, and the core that completed it. */
  function TakeCores(reserved: seq<bool>, tmp: bv32, i: nat): (seq<bool>, bv32, Option<nat>)
    decreases |reserved| - i
  {
    if i >= |reserved| then (reserved, tmp, None)
    else if reserved[i] then TakeCores(reserved, tmp, i + 1)
    else
      var tmp' := Take(tmp, i);
      if Count(tmp') == 0 then (reserved[i := true], tmp', Some(i))
      else TakeCores(reserved[i := true], tmp', i + 1)
  }

  /** What one evaluation changes: the cores it adds were free and are now reserved, nothing else moves,
      and it stops short of the request only when no core is free. */
  ghost predicate Taken(reserved: seq<bool>, tmp: bv32, reserved': seq<bool>, tmp': bv32, complete: bool) {
    && |reserved'| == |reserved|
    && Held(tmp) <= Held(tmp')
    && (forall j :: j in Held(tmp') && j !in Held(tmp) ==> j < |reserved| && !reserved[j])
    && (forall j :: 0 <= j < |reserved| ==> (reserved'[j] <==> reserved[j] || j in Held(tmp')))
    && Count(tmp') + |Held(tmp')| == Count(tmp) + |Held(tmp)|
    && (complete <==> Count(tmp') == 0)
  }

  lemma TakenOne(reserved: seq<bool>, tmp: bv32, i: nat)
    requires i < |reserved| <= MAX_CORES && Count(tmp) > 0 && !reserved[i]
    requires forall j :: j in Held(tmp) ==> j < |reserved| && reserved[j]
    ensures Taken(reserved, tmp, reserved[i := true], Take(tmp, i), Count(Take(tmp, i)) == 0)
  {
    TakeConserves(tmp, i);
  }

  lemma TakenTwice(r: seq<bool>, t: bv32, r1: seq<bool>, t1: bv32, r2: seq<bool>, t2: bv32, complete: bool)
    requires Taken(r, t, r1, t1, false) && Taken(r1, t1, r2, t2, complete)
    ensures Taken(r, t, r2, t2, complete)
  {
  }

  lemma {:induction false} TakeCoresTakes(reserved: seq<bool>, tmp: bv32, i: nat)
    requires |reserved| <= MAX_CORES && Count(tmp) > 0
    requires forall j :: j in Held(tmp) ==> j < |reserved| && reserved[j]
    ensures var (reserved', tmp', last) := TakeCores(reserved, tmp, i);
            Taken(reserved, tmp, reserved', tmp', last.Some?)
    decreases |reserved| - i
  {
    if i < |reserved| {
      if reserved[i] {
        TakeCoresTakes(reserved, tmp, i + 1);
      } else {
        TakenOne(reserved, tmp, i);
        var tmp' := Take(tmp, i);
        if Count(tmp') != 0 {
          TakeCoresTakes(reserved[i := true], tmp', i + 1);
          var (reserved2, tmp2, last) := TakeCores(reserved[i := true], tmp', i + 1);
          TakenTwice(reserved, tmp, reserved[i := true], tmp', reserved2, tmp2, last.Some?);
        }
      }
    }
  }

  lemma {:induction false} ShortMeansNoneFree(reserved: seq<bool>, tmp: bv32, i: nat)
    requires TakeCores(reserved, tmp, i).2.None?
    ensures |TakeCores(reserved, tmp, i).0| == |reserved|
    ensures forall j :: 0 <= j < |reserved| && (i <= j || reserved[j]) ==> TakeCores(reserved, tmp, i).0[j]
    decreases |reserved| - i
  {
    if i < |reserved| {
      if reserved[i] {
        ShortMeansNoneFree(reserved, tmp, i + 1);
      } else {
        ShortMeansNoneFree(reserved[i := true], Take(tmp, i), i + 1);
      }
    }
  }

  /** The cores nobody holds. */
  function FreeCores(reserved: seq<bool>): set<nat> {
    set i: nat | i < |reserved| && !reserved[i]
  }

  lemma {:induction false} SubsetSize(a: set<nat>, b: set<nat>)
    requires a <= b
    ensures |a| <= |b|
  {
    if a != {} {
      var x :| x in a;
      SubsetSize(a - {x}, b - {x});
    }
  }

  /** A request completes iff at least as many cores are free as it still misses; otherwise it takes
      every free core and waits with them. */
  lemma CompletesIffEnoughFree(reserved: seq<bool>, tmp: bv32)
    requires |reserved| <= MAX_CORES && Count(tmp) > 0
    requires forall j :: j in Held(tmp) ==> j < |reserved| && reserved[j]
    ensures var (reserved', tmp', last) := TakeCores(reserved, tmp, 0);
            && (last.Some? <==> |FreeCores(reserved)| >= Count(tmp))
            && (last.None? ==> Held(tmp') == Held(tmp) + FreeCores(reserved))
  {
    hide Bit, TakeCores;
    TakeCoresTakes(reserved, tmp, 0);
    var (reserved', tmp', last) := TakeCores(reserved, tmp, 0);
    var added := Held(tmp') - Held(tmp);
    assert Held(tmp') == Held(tmp) + added && |added| == Count(tmp) - Count(tmp');
    SubsetSize(added, FreeCores(reserved));
    if last.None? {
      ShortMeansNoneFree(reserved, tmp, 0);
      forall i | i in FreeCores(reserved)
        ensures i in added
      {
        assert reserved'[i];
      }
      assert added == FreeCores(reserved);
    }
  }

  /** The cores after ReleaseEncoder. */
  function Freed(reserved: seq<bool>, info: bv32): (r: seq<bool>)
    ensures |r| == |reserved|
    ensures forall j :: 0 <= j < |r| ==> r[j] == (reserved[j] && !Bit(info, j))
  {
    seq(|reserved|, j requires 0 <= j < |reserved| => reserved[j] && !Bit(info, j))
  }

  // ---------------------------------------------------------------- interleaved clients

  /** A request waits, holds its cores, has given them back, or was interrupted while it waited. */
  datatype Phase = Waiting | Holding | Returned | Interrupted

  /** want is the number asked for; word the packed word while waiting, and the mask afterwards. */
  datatype Request = Request(want: nat, word: bv32, phase: Phase)

  datatype System = System(reserved: seq<bool>, reqs: seq<Request>)

  /** Release(k) gives back what request k was granted, once; ReleaseMask is any other mask a client
      passes to the release call, which tests no owner. */
  datatype Step =
    | Reserve(info: bv32)
    | Wake(k: nat)
    | Interrupt(k: nat)
    | Release(k: nat)
    | ReleaseMask(info: bv32)

  /** One evaluation of the wait condition by request k. */
  function Evaluate(s: System, k: nat): System
    requires k < |s.reqs|
  {
    var (reserved, word, last) := TakeCores(s.reserved, s.reqs[k].word, 0);
    var q := if last.Some? && last.value < MAX_CORES
             then s.reqs[k].(word := Granted(word, last.value as bv32), phase := Holding)
             else s.reqs[k].(word := word);
    System(reserved, s.reqs[k := q])
  }

  function Next(s: System, step: Step): System {
    match step
    case Reserve(info) =>
      Evaluate(s.(reqs := s.reqs + [Request(Requested(info), Initial(info), Waiting)]), |s.reqs|)
    case Wake(k) => if k < |s.reqs| && s.reqs[k].phase == Waiting then Evaluate(s, k) else s
    case Interrupt(k) =>
      if k < |s.reqs| && s.reqs[k].phase == Waiting then s.(reqs := s.reqs[k := s.reqs[k].(phase := Interrupted)])
      else s
    case Release(k) =>
      if k < |s.reqs| && s.reqs[k].phase == Holding then
        System(Freed(s.reserved, s.reqs[k].word), s.reqs[k := s.reqs[k].(phase := Returned)])
      else s
    case ReleaseMask(info) => s.(reserved := Freed(s.reserved, info))
  }

  function Run(s: System, steps: seq<Step>): System
    decreases |steps|
  {
    if steps == [] then s else Run(Next(s, steps[0]), steps[1..])
  }

  /** The cores a request keeps from the others. */
  function Cores(q: Request): set<nat> {
    if q.phase == Returned then {} else Held(q.word)
  }

  /** A request that is still short holds what it does not miss; a complete one holds all it asked for. */
  predicate Accounts(q: Request) {
    if q.phase == Waiting || q.phase == Interrupted then
      0 < Count(q.word) && Count(q.word) + |Held(q.word)| == q.want
    else |Held(q.word)| == q.want
  }

  /** Core i is reserved iff some request holds it. */
  ghost predicate Owned(s: System, i: nat)
    requires i < |s.reserved|
  {
    s.reserved[i] <==> exists k :: 0 <= k < |s.reqs| && i in Cores(s.reqs[k])
  }

  ghost predicate Inv(s: System) {
    && |s.reserved| <= MAX_CORES
    && (forall k :: 0 <= k < |s.reqs| ==> Accounts(s.reqs[k]))
    && (forall k, i :: 0 <= k < |s.reqs| && i in Cores(s.reqs[k]) ==> i < |s.reserved|)
    && (forall j, k, i :: 0 <= j < k < |s.reqs| && i in Cores(s.reqs[j]) ==> i !in Cores(s.reqs[k]))
    && forall i :: 0 <= i < |s.reserved| ==> Owned(s, i)
  }

  lemma EvaluateKeeps(s: System, k: nat)
    requires Inv(s) && k < |s.reqs| && s.reqs[k].phase == Waiting
    ensures Inv(Evaluate(s, k))
    ensures forall j :: 0 <= j < |s.reqs| && j != k ==> Evaluate(s, k).reqs[j] == s.reqs[j]
  {
    hide Bit, Take, Granted, TakeCores, Count;
    var q := s.reqs[k];
    forall i | i in Held(q.word)
      ensures i < |s.reserved| && s.reserved[i]
    {
      assert i in Cores(q);
      assert Owned(s, i);
    }
    TakeCoresTakes(s.reserved, q.word, 0);
    var (reserved, word, last) := TakeCores(s.reserved, q.word, 0);
    LastInBounds(s.reserved, q.word, 0);
    var s' := Evaluate(s, k);
    var q' := s'.reqs[k];
    if last.Some? {
      GrantedHolds(word, last.value as bv32);
    }
    assert Cores(q') == Held(word);
    NewOwner(s, s', k);
  }

  /** Waking up, a request completes iff at least as many cores are free as it misses; otherwise it holds
      every free core as well and waits on. */
  lemma WakeCompletes(s: System, k: nat)
    requires Inv(s) && k < |s.reqs| && s.reqs[k].phase == Waiting
    ensures var q, q' := s.reqs[k], Next(s, Wake(k)).reqs[k];
            if |FreeCores(s.reserved)| >= Count(q.word) then q'.phase == Holding && |Cores(q')| == q.want
            else q'.phase == Waiting && Cores(q') == Cores(q) + FreeCores(s.reserved)
  {
    hide Bit, Take, Granted, Count;
    var q := s.reqs[k];
    forall j | j in Held(q.word)
      ensures j < |s.reserved| && s.reserved[j]
    {
      assert j in Cores(q);
      assert Owned(s, j);
    }
    CompletesIffEnoughFree(s.reserved, q.word);
    LastInBounds(s.reserved, q.word, 0);
    EvaluateKeeps(s, k);
  }

  /** A new request for so many cores completes at once iff that many are free. */
  lemma ReserveCompletes(s: System, info: bv32)
    requires Inv(s)
    ensures var s' := Next(s, Reserve(info));
            && |s'.reqs| == |s.reqs| + 1
            && (if |FreeCores(s.reserved)| >= Requested(info)
                then s'.reqs[|s.reqs|].phase == Holding && |Cores(s'.reqs[|s.reqs|])| == Requested(info)
                else s'.reqs[|s.reqs|].phase == Waiting && Cores(s'.reqs[|s.reqs|]) == FreeCores(s.reserved))
  {
    InitialHoldsNothing(info);
    var s1 := s.(reqs := s.reqs + [Request(Requested(info), Initial(info), Waiting)]);
    assert Accounts(Request(Requested(info), Initial(info), Waiting));
    hide Bit, Take, Granted, Count, TakeCores, Initial, Requested;
    JoinKeeps(s, Request(Requested(info), Initial(info), Waiting));
    WakeCompletes(s1, |s.reqs|);
  }

  /** A request that holds nothing yet disturbs nothing. */
  lemma JoinKeeps(s: System, q: Request)
    requires Inv(s) && Accounts(q) && Held(q.word) == {}
    ensures Inv(s.(reqs := s.reqs + [q]))
  {
    hide Bit, Held, Accounts;
    var s1 := s.(reqs := s.reqs + [q]);
    forall i | 0 <= i < |s1.reserved|
      ensures Owned(s1, i)
    {
      assert Owned(s, i);
      if s.reserved[i] {
        var j :| 0 <= j < |s.reqs| && i in Cores(s.reqs[j]);
        assert i in Cores(s1.reqs[j]);
      }
    }
  }

  /** A request that completes is handed a word that names, above the mask, the core that completed it: one
      it did not hold before. */
  lemma CompletedBy(s: System, k: nat) returns (i: nat)
    requires Inv(s) && k < |s.reqs| && s.reqs[k].phase == Waiting && Evaluate(s, k).reqs[k].phase == Holding
    ensures var q, q' := s.reqs[k], Evaluate(s, k).reqs[k];
            i < |s.reserved| && q'.word >> 16 == i as bv32 && i in Held(q'.word) && i !in Held(q.word)
  {
    hide Bit, Take, Granted, Count;
    var q := s.reqs[k];
    forall j | j in Held(q.word)
      ensures j < |s.reserved| && s.reserved[j]
    {
      assert j in Cores(q);
      assert Owned(s, j);
    }
    LastIsTaken(s.reserved, q.word, 0);
    var (reserved, word, last) := TakeCores(s.reserved, q.word, 0);
    i := last.value;
    GrantedNames(word, i as bv32);
    GrantedHolds(word, i as bv32);
  }

  /** The core that completes a word is in it and was free. */
  lemma {:induction false} LastIsTaken(reserved: seq<bool>, tmp: bv32, i: nat)
    requires |reserved| <= MAX_CORES
    ensures var (_, tmp', last) := TakeCores(reserved, tmp, i);
            last.Some? ==> last.value < |reserved| && !reserved[last.value] && last.value in Held(tmp')
    decreases |reserved| - i
  {
    if i < |reserved| {
      if reserved[i] {
        LastIsTaken(reserved, tmp, i + 1);
      } else {
        TakeBit(tmp, i, i);
        LastIsTaken(reserved[i := true], Take(tmp, i), i + 1);
      }
    }
  }

  /** Bits 30 to 28 ask for one core more than they count: all eight of them are had at once. */
  lemma AsksForEight()
    ensures Requested(0x7000_0000) == 8 && Count(Initial(0x7000_0000)) == 8
    ensures Requested(0x4000_00FF) == 5 && Count(Initial(0x4000_00FF)) == 5
  {
    InitialHoldsNothing(0x7000_0000);
    InitialHoldsNothing(0x4000_00FF);
  }

  lemma {:induction false} LastInBounds(reserved: seq<bool>, tmp: bv32, i: nat)
    ensures TakeCores(reserved, tmp, i).2.Some? ==> TakeCores(reserved, tmp, i).2.value < |reserved|
    decreases |reserved| - i
  {
    if i < |reserved| {
      if reserved[i] {
        LastInBounds(reserved, tmp, i + 1);
      } else {
        LastInBounds(reserved[i := true], Take(tmp, i), i + 1);
      }
    }
  }

  /** A request that adds only free cores, and reserves them, disturbs no other. */
  lemma NewOwner(s: System, s': System, k: nat)
    requires Inv(s) && k < |s.reqs| && |s'.reserved| == |s.reserved|
    requires |s'.reqs| == |s.reqs| && s'.reqs == s.reqs[k := s'.reqs[k]] && Accounts(s'.reqs[k])
    requires Cores(s.reqs[k]) <= Cores(s'.reqs[k])
    requires forall i :: i in Cores(s'.reqs[k]) && i !in Cores(s.reqs[k]) ==> i < |s.reserved| && !s.reserved[i]
    requires forall i :: 0 <= i < |s.reserved| ==> (s'.reserved[i] <==> s.reserved[i] || i in Cores(s'.reqs[k]))
    ensures Inv(s')
  {
    forall j, i | 0 <= j < |s.reqs| && j != k && i in Cores(s.reqs[j])
      ensures i !in Cores(s'.reqs[k])
    {
      assert Owned(s, i);
    }
    forall i | 0 <= i < |s.reserved|
      ensures Owned(s', i)
    {
      assert Owned(s, i);
      if s.reserved[i] {
        var j :| 0 <= j < |s.reqs| && i in Cores(s.reqs[j]);
        assert i in Cores(s'.reqs[j]);
      }
    }
  }

  lemma ReleaseKeeps(s: System, k: nat)
    requires Inv(s) && k < |s.reqs| && s.reqs[k].phase == Holding
    ensures Inv(Next(s, Release(k)))
    ensures forall i :: 0 <= i < |s.reserved| ==>
              (Next(s, Release(k)).reserved[i] <==> s.reserved[i] && i !in Cores(s.reqs[k]))
  {
    hide Bit, Count;
    var s' := Next(s, Release(k));
    forall i | 0 <= i < |s.reserved|
      ensures Owned(s', i)
    {
      assert Owned(s, i);
      if s.reserved[i] {
        var j :| 0 <= j < |s.reqs| && i in Cores(s.reqs[j]);
        if j != k {
          assert i in Cores(s'.reqs[j]);
        }
      }
    }
  }

  /** The mask names no core that a request holds. */
  ghost predicate Spares(s: System, info: bv32) {
    forall k, i :: 0 <= k < |s.reqs| && i in Cores(s.reqs[k]) ==> !Bit(info, i)
  }

  ghost predicate Safe(s: System, step: Step) {
    step.ReleaseMask? ==> Spares(s, step.info)
  }

  /** Releasing a mask out of turn does no harm iff it spares every core that is held. */
  lemma MaskIsExact(s: System, info: bv32)
    requires Inv(s)
    ensures Inv(Next(s, ReleaseMask(info))) <==> Spares(s, info)
    ensures !Spares(s, info) ==> exists i :: 0 <= i < |s.reserved| && !Owned(Next(s, ReleaseMask(info)), i)
  {
    hide Bit, Held, Accounts;
    var s' := Next(s, ReleaseMask(info));
    if Spares(s, info) {
      forall i | 0 <= i < |s.reserved|
        ensures Owned(s', i)
      {
        assert Owned(s, i);
      }
    } else {
      var k, i :| 0 <= k < |s.reqs| && i in Cores(s.reqs[k]) && Bit(info, i);
      assert !s'.reserved[i] && i in Cores(s'.reqs[k]);
      assert !Owned(s', i);
    }
  }

  lemma NextKeeps(s: System, step: Step)
    requires Inv(s) && Safe(s, step)
    ensures Inv(Next(s, step))
  {
    match step
    case Reserve(info) =>
      InitialHoldsNothing(info);
      var q := Request(Requested(info), Initial(info), Waiting);
      JoinKeeps(s, q);
      EvaluateKeeps(s.(reqs := s.reqs + [q]), |s.reqs|);
    case Wake(k) =>
      if k < |s.reqs| && s.reqs[k].phase == Waiting {
        EvaluateKeeps(s, k);
      }
    case Interrupt(k) =>
      if k < |s.reqs| && s.reqs[k].phase == Waiting {
        forall i | i in Cores(s.reqs[k])
          ensures s.reserved[i]
        {
          assert Owned(s, i);
        }
        NewOwner(s, Next(s, step), k);
      }
    case Release(k) =>
      if k < |s.reqs| && s.reqs[k].phase == Holding {
        ReleaseKeeps(s, k);
      }
    case ReleaseMask(info) => MaskIsExact(s, info);
  }

  ghost predicate AllSafe(s: System, steps: seq<Step>)
    decreases |steps|
  {
    steps != [] ==> Safe(s, steps[0]) && AllSafe(Next(s, steps[0]), steps[1..])
  }

  /** Cores held plus cores missing is the number asked for, a completed request holds exactly that
      number, no core is held twice, and a core is reserved iff a request holds it. */
  ghost predicate Exact(s: System) {
    && (forall k :: 0 <= k < |s.reqs| && s.reqs[k].phase == Waiting ==>
          Count(s.reqs[k].word) + |Cores(s.reqs[k])| == s.reqs[k].want)
    && (forall k :: 0 <= k < |s.reqs| && s.reqs[k].phase == Holding ==> |Cores(s.reqs[k])| == s.reqs[k].want)
    && (forall j, k :: 0 <= j < k < |s.reqs| ==> Cores(s.reqs[j]) !! Cores(s.reqs[k]))
    && forall i :: 0 <= i < |s.reserved| ==> Owned(s, i)
  }

  ghost predicate AlwaysExact(s: System, steps: seq<Step>)
    decreases |steps|
  {
    Exact(s) && (steps != [] ==> AlwaysExact(Next(s, steps[0]), steps[1..]))
  }

  lemma InvIsExact(s: System)
    requires Inv(s)
    ensures Exact(s)
  {
    hide Bit, Count, Held;
  }

  lemma {:induction false} RunIsExact(s: System, steps: seq<Step>)
    requires Inv(s)
    ensures AlwaysExact(s, steps) <==> AllSafe(s, steps)
    decreases |steps|
  {
    InvIsExact(s);
    if steps != [] {
      hide Inv, Next;
      NextLength(s, steps[0]);
      if Safe(s, steps[0]) {
        NextKeeps(s, steps[0]);
        RunIsExact(Next(s, steps[0]), steps[1..]);
      } else {
        MaskIsExact(s, steps[0].info);
      }
    }
  }

  /** Any interleaving of clients on at most eight cores keeps the accounts exact, at all times, iff no
      mask released out of turn names a core that is held. */
  lemma EveryInterleavingIsExact(n: nat, steps: seq<Step>)
    requires n <= MAX_CORES
    ensures AlwaysExact(System(seq(n, _ => false), []), steps) <==> AllSafe(System(seq(n, _ => false), []), steps)
  {
    RunIsExact(System(seq(n, _ => false), []), steps);
  }

  lemma LastMissing(tmp: bv32, info: bv32)
    requires tmp == 0x1000_0000 && info == 0
    ensures Initial(info) == tmp && TakeFlag(tmp, 1) == 1 && Count(tmp) == 1 && Count(1) == 0 && Granted(1, info) == 1
  {
  }

  lemma ReserveOnlyCore(reqs: seq<Request>)
    ensures Next(System([false], reqs), Reserve(0)) == System([true], reqs + [Request(1, 1, Holding)])
  {
    LastMissing(0x1000_0000, 0);
    assert Take(0x1000_0000, 0) == 1 && [false][0 := true] == [true];
    assert TakeCores([false], 0x1000_0000, 0) == ([true], 1, Some(0));
    var q, q' := Request(1, 0x1000_0000, Waiting), Request(1, 1, Holding);
    assert (reqs + [q])[|reqs| := q'] == reqs + [q'];
  }

  /** One core: a client that has given it back releases its mask again while another client holds the
      core, and a third client is given the core as well. */
  lemma SecondReleaseSharesTheCore()
    ensures var s := Run(System([false], []), [Reserve(0), Release(0), Reserve(0), ReleaseMask(1), Reserve(0)]);
            && |s.reqs| == 3 && s.reqs[1].phase == s.reqs[2].phase == Holding
            && Cores(s.reqs[1]) == Cores(s.reqs[2]) == {0}
  {
    var q := Request(1, 1, Holding);
    var q' := q.(phase := Returned);
    var steps := [Reserve(0), Release(0), Reserve(0), ReleaseMask(1), Reserve(0)];
    OnlyBit();
    assert Freed([true], 1) == [false];
    ReserveOnlyCore([]);
    assert Run(System([false], []), steps) == Run(System([true], [q]), steps[1..]);
    assert steps[1..][1..] == steps[2..] && [q][0 := q'] == [q'];
    assert Run(System([true], [q]), steps[1..]) == Run(System([false], [q']), steps[2..]);
    ReserveOnlyCore([q']);
    assert steps[2..][1..] == steps[3..];
    assert Run(System([false], [q']), steps[2..]) == Run(System([true], [q', q]), steps[3..]);
    assert steps[3..][1..] == steps[4..];
    assert Run(System([true], [q', q]), steps[3..]) == Run(System([false], [q', q]), steps[4..]);
    ReserveOnlyCore([q', q]);
    assert steps[4..][1..] == [];
  }

  lemma OnlyBit()
    ensures Bit(1, 0) && Held(1) == {0}
  {
    forall i: nat | i < MAX_CORES
      ensures Bit(1, i) <==> i == 0
    {
      FlagsDiffer(0, i);
    }
  }

  /** An interrupted wait returns an error to the client but gives no core back: what the request held by
      then stays reserved through every later run in which clients release only what they were granted or
      what nobody holds. */
  lemma {:induction false} InterruptedCoresAreLost(s: System, k: nat, steps: seq<Step>)
    requires Inv(s) && k < |s.reqs| && s.reqs[k].phase == Interrupted && AllSafe(s, steps)
    ensures var s' := Run(s, steps);
            && |s'.reserved| == |s.reserved| && k < |s'.reqs| && s'.reqs[k] == s.reqs[k]
            && forall i :: i in Cores(s.reqs[k]) ==> i < |s.reserved| && s'.reserved[i]
    decreases |steps|
  {
    hide Bit;
    if steps == [] {
      forall i | i in Cores(s.reqs[k])
        ensures s.reserved[i]
      {
        assert Owned(s, i);
      }
    } else {
      NextKeeps(s, steps[0]);
      NextLength(s, steps[0]);
      InterruptedCoresAreLost(Next(s, steps[0]), k, steps[1..]);
    }
  }

  /** From the signal on: the request never completes, and what it had collected is lost. */
  lemma InterruptLosesCores(s: System, k: nat, steps: seq<Step>)
    requires Inv(s) && k < |s.reqs| && s.reqs[k].phase == Waiting && AllSafe(s, [Interrupt(k)] + steps)
    ensures var s' := Run(s, [Interrupt(k)] + steps);
            && |s'.reserved| == |s.reserved| && k < |s'.reqs| && s'.reqs[k].phase == Interrupted
            && forall i :: i in Cores(s.reqs[k]) ==> i < |s.reserved| && s'.reserved[i]
  {
    var s1 := Next(s, Interrupt(k));
    assert ([Interrupt(k)] + steps)[1..] == steps;
    NextKeeps(s, Interrupt(k));
    hide Bit, Held, Inv;
    InterruptedCoresAreLost(s1, k, steps);
  }

  lemma NextLength(s: System, step: Step)
    ensures |Next(s, step).reserved| == |s.reserved|
  {
    match step
    case Reserve(info) => TakeLength(s.reserved, Initial(info), 0);
    case Wake(k) => if k < |s.reqs| { TakeLength(s.reserved, s.reqs[k].word, 0); }
    case _ =>
  }

  lemma {:induction false} TakeLength(reserved: seq<bool>, tmp: bv32, i: nat)
    ensures |TakeCores(reserved, tmp, i).0| == |reserved|
    decreases |reserved| - i
  {
    if i < |reserved| {
      if reserved[i] {
        TakeLength(reserved, tmp, i + 1);
      } else {
        TakeLength(reserved[i := true], Take(tmp, i), i + 1);
      }
    }
  }

  // ---------------------------------------------------------------- in place

  /** Bit j of the shifted mask is bit i + j of the mask. */
  predicate ShiftedAt(info: bv32, i: nat, mapping: bv32, j: nat) {
    Bit(mapping, j) <==> i + j < MAX_CORES && Bit(info, i + j)
  }

  ghost predicate Shifted(info: bv32, i: nat, mapping: bv32) {
    i <= MAX_CORES && mapping <= 0xFF && forall j: nat :: j < MAX_CORES ==> ShiftedAt(info, i, mapping, j)
  }

  lemma ShiftBit(mapping: bv32, j: nat)
    requires mapping <= 0xFF && j < MAX_CORES
    ensures mapping >> 1 <= 0xFF
    ensures Bit(mapping >> 1, j) <==> j + 1 < MAX_CORES && Bit(mapping, j + 1)
  {
  }

  lemma ShiftOnce(info: bv32, i: nat, mapping: bv32)
    requires Shifted(info, i, mapping) && i < MAX_CORES
    ensures Shifted(info, i + 1, mapping >> 1)
  {
    var i', m := i + 1, mapping >> 1;
    forall j: nat | j < MAX_CORES
      ensures ShiftedAt(info, i', m, j)
    {
      ShiftBit(mapping, j);
      var j' := j + 1;
      assert j' < MAX_CORES ==> ShiftedAt(info, i, mapping, j');
    }
    ShiftBit(mapping, 0);
  }

  lemma NothingLeft(mapping: bv32)
    requires mapping <= 0xFF && forall j: nat :: j < MAX_CORES ==> !Bit(mapping, j)
    ensures mapping == 0
  {
    assert !Bit(mapping, 0) && !Bit(mapping, 1) && !Bit(mapping, 2) && !Bit(mapping, 3);
    assert !Bit(mapping, 4) && !Bit(mapping, 5) && !Bit(mapping, 6) && !Bit(mapping, 7);
    AllFlags(mapping);
  }

  lemma AllFlags(m: bv32)
    requires m <= 0xFF && m & 1 == 0 && m & 2 == 0 && m & 4 == 0 && m & 8 == 0
    requires m & 16 == 0 && m & 32 == 0 && m & 64 == 0 && m & 128 == 0
    ensures m == 0
  {
  }

  lemma MaskOnly(info: bv32)
    ensures Shifted(info, 0, info & 0xFF)
  {
    var m := info & 0xFF;
    LowByte(info);
    forall j: nat | j < MAX_CORES
      ensures ShiftedAt(info, 0, m, j)
    {
      MaskedBit(info, j);
    }
  }

  lemma LowByte(info: bv32)
    ensures info & 0xFF <= 0xFF
  {
  }

  lemma MaskedBit(info: bv32, j: nat)
    requires j < MAX_CORES
    ensures Bit(info & 0xFF, j) <==> Bit(info, j)
  {
    FlagsDiffer(j, j);
    hide On, Flag;
    KeepsLowByte(info, Flag(j));
  }

  lemma KeepsLowByte(info: bv32, g: bv32)
    requires g <= 0xFF
    ensures On(info & 0xFF, g) <==> On(info, g)
  {
  }

  lemma SmallCore(i: nat)
    requires i < MAX_CORES
    ensures i as bv32 <= 0xFFFF
  {
  }

  class Encoders {
    const reserved: array<bool>
    const pid: array<int>

    ghost predicate Valid() {
      reserved.Length == pid.Length <= MAX_CORES
    }

    constructor (n: nat)
      requires n <= MAX_CORES
      ensures Valid() && fresh(reserved) && fresh(pid)
      ensures reserved[..] == seq(n, _ => false)
    {
      reserved := new bool[n](_ => false);
      pid := new int[n](_ => -1);
    }

    method CheckCoreOccupation(i: nat, tgid: int) returns (ok: bool)
      requires Valid() && i < reserved.Length
      modifies reserved, pid
      ensures ok == !old(reserved[i])
      ensures reserved[..] == old(reserved[..])[i := true]
      ensures pid[..] == if ok then old(pid[..])[i := tgid] else old(pid[..])
    {
      ok := !reserved[i];
      if ok {
        reserved[i], pid[i] := true, tgid;
      }
    }

    /** GetWorkableCore, the wait condition of ReserveEncoder. A word that misses no core is complete and
        changes nothing. */
    method GetWorkableCore(info: bv32, tmp: bv32, tgid: int) returns (ret: bool, info': bv32, tmp': bv32)
      requires Valid()
      modifies reserved, pid
      ensures tmp != 0 && Count(tmp) == 0 ==> ret && info' == info && tmp' == tmp && reserved[..] == old(reserved[..])
      ensures tmp == 0 || Count(tmp) > 0 ==>
                var t0 := if tmp == 0 then Initial(info) else tmp;
                var (after, word, last) := TakeCores(old(reserved[..]), t0, 0);
                && reserved[..] == after && tmp' == word && ret == last.Some?
                && (!ret ==> info' == info)
                && (ret ==> last.value < MAX_CORES && info' == Granted(word, last.value as bv32))
    {
      ret, info', tmp' := false, info, if tmp == 0 then Initial(info) else tmp;
      InitialHoldsNothing(info);
      if tmp' >> 28 == 0 {
        ret := true;
      } else {
        ret, info', tmp' := TakeFree(info, tmp', tgid);
      }
    }

    method TakeFree(info: bv32, t0: bv32, tgid: int) returns (ret: bool, info': bv32, tmp': bv32)
      requires Valid() && Count(t0) > 0
      modifies reserved, pid
      ensures var (after, word, last) := TakeCores(old(reserved[..]), t0, 0);
              && reserved[..] == after && tmp' == word && ret == last.Some?
              && (!ret ==> info' == info)
              && (ret ==> last.value < MAX_CORES && info' == Granted(word, last.value as bv32))
              && (ret ==> info' >> 16 == last.value as bv32)
    {
      ret, info', tmp' := false, info, t0;
      ghost var before := reserved[..];
      var i := 0;
      while i < reserved.Length
        invariant i <= reserved.Length && Count(tmp') > 0
        invariant TakeCores(before, t0, 0) == TakeCores(reserved[..], tmp', i)
      {
        ghost var r := reserved[..];
        var ok := CheckCoreOccupation(i, tgid);
        if ok {
          TakeCount(tmp', i);
          tmp' := Take(tmp', i);
          if tmp' >> 28 == 0 {
            info' := Granted(tmp', i as bv32);
            SmallCore(i);
            GrantedNames(tmp', i as bv32);
            return true, info', tmp';
          }
        } else {
          assert r[i := true] == r;
        }
        i := i + 1;
      }
    }

    /** ReleaseEncoder. Not ok: the walk over the cores steps past the end of the list and follows a null
        pointer, which it does iff the mask has a bit behind the end but none at the end. The cores of the
        mask are free by then. */
    method ReleaseEncoder(info: bv32) returns (ok: bool)
      requires Valid()
      modifies reserved, pid
      ensures reserved[..] == Freed(old(reserved[..]), info)
      ensures forall j :: 0 <= j < pid.Length ==>
                pid[j] == if Bit(info, j) && old(reserved[j]) then -1 else old(pid[j])
      ensures ok <==> forall j :: reserved.Length < j < MAX_CORES && Bit(info, j) ==> Bit(info, reserved.Length)
    {
      hide Bit, Shifted;
      var mapping, i := info & 0xFF, 0;
      MaskOnly(info);
      while mapping != 0
        invariant Shifted(info, i, mapping) && i <= reserved.Length
        invariant forall j :: 0 <= j < reserved.Length ==>
                    reserved[j] == (old(reserved[j]) && (j >= i || !Bit(info, j)))
        invariant forall j :: 0 <= j < pid.Length ==>
                    pid[j] == if j < i && Bit(info, j) && old(reserved[j]) then -1 else old(pid[j])
        decreases MAX_CORES - i
      {
        ghost var b := LowBit(info, i, mapping);
        if mapping & 1 != 0 {
          if i >= reserved.Length {
            return true;
          }
          if reserved[i] {
            reserved[i], pid[i] := false, -1;
          }
        } else if i >= reserved.Length {
          assert Bit(info, b);
          return false;
        }
        ShiftOnce(info, i, mapping);
        mapping, i := mapping >> 1, i + 1;
      }
      NoMoreBits(info, i, mapping);
      ok := true;
    }
  }

  /** A nonempty rest of the mask stands for a bit of the mask, and its lowest bit for bit i. */
  lemma LowBit(info: bv32, i: nat, mapping: bv32) returns (b: nat)
    requires Shifted(info, i, mapping) && mapping != 0
    ensures i <= b < MAX_CORES && Bit(info, b) && (mapping & 1 != 0 <==> Bit(info, i))
  {
    if forall j: nat :: j < MAX_CORES ==> !Bit(mapping, j) {
      NothingLeft(mapping);
      assert false;
      b := i;
    } else {
      var j: nat :| j < MAX_CORES && Bit(mapping, j);
      assert ShiftedAt(info, i, mapping, j);
      b := i + j;
    }
    assert ShiftedAt(info, i, mapping, 0);
    assert Bit(mapping, 0) <==> mapping & 1 != 0;
  }

  lemma NoMoreBits(info: bv32, i: nat, mapping: bv32)
    requires Shifted(info, i, mapping) && mapping == 0
    ensures forall j :: i <= j < MAX_CORES ==> !Bit(info, j)
  {
    forall j | i <= j < MAX_CORES
      ensures !Bit(info, j)
    {
      var d: nat := j - i;
      assert ShiftedAt(info, i, mapping, d);
    }
  }
}
