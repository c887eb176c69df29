/** Buffer memory, word by word: where the words lie that the driver writes into a command buffer, when
    they are the buffer's own, and that linking in memory is what linking is on the queue. */
module VcmdMemory {
  import opened Wrappers
  import opened JmpWords
  import opened VcmdSpec
  import opened VcmdChain
  import opened VcmdMembership
  import opened CmdbufPool
  import BitNumbers

  /** The address of the four JMP words: counted back from the end of the buffer in whole words. */
  function WordsAt(addr: nat, size: nat): int {
    addr + size / 4 * 4 - 16
  }

  predicate JmpWord(addr: nat, size: nat, a: int) {
    var w := WordsAt(addr, size);
    a == w || a == w + 4 || a == w + 8 || a == w + 12
  }

  /** The words of the first command and of the one in front of the JMP into which link_and_run_cmdbuf,
      on newer hardware, puts the addresses the hardware dumps its registers to. */
  predicate DumpWord(addr: nat, size: nat, a: int) {
    var w := WordsAt(addr, size);
    a == addr + 4 || a == addr + 8 || a == w - 12 || a == w - 8
  }

  /** The words of a buffer the driver writes. */
  predicate Written(cfg: Config, addr: nat, size: nat, a: int) {
    JmpWord(addr, size, a) || (cfg.newHw && DumpWord(addr, size, a))
  }

  predicate InSlot(addr: nat, a: int) {
    addr <= a && a + 4 <= addr + CMDBUF_MAX_SIZE
  }

  predicate Clash(cfg: Config, addr: nat, size: nat, a: int) {
    cfg.newHw && DumpWord(addr, size, a) && JmpWord(addr, size, a)
  }

  /** The driver writes inside the slot and never over a JMP it has tested, and the address range of the
      buffer stays inside the slot, iff the size fits. */
  lemma OwnSlot(cfg: Config, addr: nat, size: nat)
    ensures SizeFits(cfg, size) <==>
              && size <= CMDBUF_MAX_SIZE
              && (forall a :: Written(cfg, addr, size, a) ==> InSlot(addr, a))
              && (forall a :: !Clash(cfg, addr, size, a))
  {
    var w := WordsAt(addr, size);
    assert Written(cfg, addr, size, w);
    assert cfg.newHw ==> Written(cfg, addr, size, w - 12);
  }

  /** The register dump is put over the opcode word of the buffer's own JMP iff the size is 20 to 27. */
  lemma DumpHitsOpcode(addr: nat, size: nat)
    ensures DumpWord(addr, size, WordsAt(addr, size)) <==> 20 <= size < 28
  {
  }

  /** In a queue of fitting buffers no two have a word in common that the driver writes. */
  lemma WordsArePrivate(cfg: Config, base: nat, list: seq<Buf>, i: nat, j: nat, a: int)
    requires InSlots(base, list) && AllFit(cfg, list) && DistinctIds(list) && i < |list| && j < |list| && i != j
    ensures !(Written(cfg, list[i].addr, list[i].size, a) && Written(cfg, list[j].addr, list[j].size, a))
  {
    if i < j {
      assert Differ(list[i], list[j]);
    } else {
      assert Differ(list[j], list[i]);
    }
    SlotsApart(base, list[i].id, list[j].id);
    OwnSlot(cfg, list[i].addr, list[i].size);
    OwnSlot(cfg, list[j].addr, list[j].size);
  }

  // ---------------------------------------------------------------- reading and writing

  type Word32 = x: int | 0 <= x < U32

  type Memory = int -> Word32

  function Store(m: Memory, at: int, v: nat): Memory {
    (a: int) => if a == at then v % U32 else m(a)
  }

  function LoadWords(m: Memory, at: int): Words {
    Words(m(at) as bv32, m(at + 4), m(at + 8), m(at + 12))
  }

  function StoreWords(m: Memory, at: int, w: Words): Memory {
    Store(Store(Store(Store(m, at, w.op as nat), at + 4, w.lo), at + 8, w.hi), at + 12, w.id)
  }

  /** The two register-dump addresses link_and_run_cmdbuf fills in, each as two words. */
  function FillDumps(m: Memory, cfg: Config, addr: nat, size: nat, idDump: nat, regDump: nat): Memory {
    if !cfg.newHw then m
    else
      var w := WordsAt(addr, size);
      var m1 := Store(Store(m, addr + 8, idDump / U32), addr + 4, idDump);
      Store(Store(m1, w - 8, regDump / U32), w - 12, regDump)
  }

  /** An address read from two words, low word first. */
  function LoadAddress(m: Memory, at: int): nat {
    m(at + 4) * U32 + m(at)
  }

  /** The first command has been given the address for the executing id, and the one in front of the JMP
      that of the register dump. */
  predicate Placed(m: Memory, cfg: Config, addr: nat, size: nat, idDump: nat, regDump: nat) {
    var m' := FillDumps(m, cfg, addr, size, idDump, regDump);
    LoadAddress(m', addr + 4) == idDump && LoadAddress(m', addr + size / 4 * 4 - 28) == regDump
  }

  /** Both addresses are found where they were put, whatever they are, iff the buffer has at least 40 bytes:
      below that the second is written over words of the first. */
  lemma DumpsAreExact(m: Memory, cfg: Config, addr: nat, size: nat)
    requires cfg.newHw && size >= 28
    ensures (forall idDump, regDump :: 0 <= idDump < U32 * U32 && 0 <= regDump < U32 * U32 ==>
               Placed(m, cfg, addr, size, idDump, regDump))
            <==> size >= 40
  {
    if size >= 40 {
      forall idDump, regDump | 0 <= idDump < U32 * U32 && 0 <= regDump < U32 * U32
        ensures Placed(m, cfg, addr, size, idDump, regDump)
      {
        DumpsArePlaced(m, cfg, addr, size, idDump, regDump);
      }
    } else {
      assert !Placed(m, cfg, addr, size, 0, U32 + 1);
    }
  }

  lemma DumpsArePlaced(m: Memory, cfg: Config, addr: nat, size: nat, idDump: nat, regDump: nat)
    requires cfg.newHw && size >= 40 && idDump < U32 * U32 && regDump < U32 * U32
    ensures Placed(m, cfg, addr, size, idDump, regDump)
  {
    SplitAddress(idDump);
    SplitAddress(regDump);
    FullAddress(idDump);
    FullAddress(regDump);
  }

  predicate Fit32(w: Words) {
    w.lo < U32 && w.hi < U32 && w.id < U32
  }

  lemma LoadsWhatWasStored(m: Memory, at: int, w: Words)
    requires Fit32(w)
    ensures LoadWords(StoreWords(m, at, w), at) == w
  {
    assert w.op as nat < U32;
    assert (w.op as nat) as bv32 == w.op;
  }

  lemma LoadsSame(m: Memory, m': Memory, at: int)
    requires m'(at) == m(at) && m'(at + 4) == m(at + 4) && m'(at + 8) == m(at + 8) && m'(at + 12) == m(at + 12)
    ensures LoadWords(m', at) == LoadWords(m, at)
  {
  }

  // ---------------------------------------------------------------- memory shows the queue

  /** A size as the driver keeps it, in 16 bits. */
  function Size16(size: nat): bv32 {
    (size % U32) as bv32 & 0xFFFF
  }

  lemma Size16Fits(size: nat)
    ensures Size16(size) <= 0xFFFF
  {
    MaskFits((size % U32) as bv32);
  }

  lemma MaskFits(x: bv32)
    ensures x & 0xFFFF <= 0xFFFF
  {
  }

  /** The JMP words of b in memory decode to what the queue says. */
  predicate Shows(m: Memory, b: Buf) {
    && Decode(LoadWords(m, WordsAt(b.addr, b.size))) == b.jmp
    && b.units == LenUnits(Size16(b.size))
  }

  /** The queue lies in its slots, below 2^64, and memory shows each of its buffers. */
  ghost predicate Mirrors(cfg: Config, base: nat, m: Memory, list: seq<Buf>) {
    && InSlots(base, list) && AllFit(cfg, list) && DistinctIds(list)
    && base + TOTAL_DISCRETE_CMDBUF_NUM * CMDBUF_MAX_SIZE <= U32 * U32
    && forall i :: 0 <= i < |list| ==> Shows(m, list[i])
  }

  /** m' differs from m only in words of b that the driver writes. */
  ghost predicate WritesOnly(cfg: Config, b: Buf, m: Memory, m': Memory) {
    forall a :: !Written(cfg, b.addr, b.size, a) ==> m'(a) == m(a)
  }

  /** Writing into one buffer leaves the JMP of every other as it was: a buffer may be modelled with words
      of its own. */
  lemma WritesTouchOneBuffer(cfg: Config, base: nat, m: Memory, m': Memory, list: seq<Buf>, i: nat, j: nat)
    requires Mirrors(cfg, base, m, list) && i < |list| && j < |list| && i != j && WritesOnly(cfg, list[i], m, m')
    ensures Shows(m', list[j])
  {
    var w := WordsAt(list[j].addr, list[j].size);
    WordsArePrivate(cfg, base, list, i, j, w);
    WordsArePrivate(cfg, base, list, i, j, w + 4);
    WordsArePrivate(cfg, base, list, i, j, w + 8);
    WordsArePrivate(cfg, base, list, i, j, w + 12);
    hide Decode, LenUnits;
    assert Shows(m, list[j]);
    LoadsSame(m, m', w);
  }

  lemma OneBufferChanges(cfg: Config, base: nat, m: Memory, m': Memory, list: seq<Buf>, i: nat, b: Buf)
    requires Mirrors(cfg, base, m, list) && i < |list| && WritesOnly(cfg, list[i], m, m') && Shows(m', b)
    requires b.id == list[i].id && b.addr == list[i].addr && b.size == list[i].size
    ensures Mirrors(cfg, base, m', list[i := b])
  {
    hide Shows;
    KeepsDistinct(list, list[i := b]);
    var list' := list[i := b];
    forall j | 0 <= j < |list'|
      ensures Shows(m', list'[j])
    {
      if j != i {
        WritesTouchOneBuffer(cfg, base, m, m', list, i, j);
      }
    }
  }

  /** Filling in the register dumps of a queued buffer changes no JMP, its own included. */
  lemma DumpsKeepTheChain(cfg: Config, base: nat, m: Memory, list: seq<Buf>, i: nat, idDump: nat, regDump: nat)
    requires Mirrors(cfg, base, m, list) && i < |list|
    ensures Mirrors(cfg, base, FillDumps(m, cfg, list[i].addr, list[i].size, idDump, regDump), list)
  {
    var b := list[i];
    var m', w := FillDumps(m, cfg, b.addr, b.size, idDump, regDump), WordsAt(b.addr, b.size);
    hide Decode, LenUnits;
    assert Shows(m, b);
    OwnSlot(cfg, b.addr, b.size);
    assert forall a :: JmpWord(b.addr, b.size, a) ==> !Clash(cfg, b.addr, b.size, a) && m'(a) == m(a);
    assert JmpWord(b.addr, b.size, w) && JmpWord(b.addr, b.size, w + 4);
    assert JmpWord(b.addr, b.size, w + 8) && JmpWord(b.addr, b.size, w + 12);
    LoadsSame(m, m', w);
    OneBufferChanges(cfg, base, m, m', list, i, b);
    assert list[i := b] == list;
  }

  /** The unit count memory goes by covers the size. */
  lemma UnitsCover(m: Memory, b: Buf)
    requires Shows(m, b) && b.size <= CMDBUF_MAX_SIZE
    ensures b.size <= 8 * (b.units as nat) < b.size + 8
  {
    hide Decode, LenUnits, LoadWords, Size16, WordsAt;
    Size16Fits(b.size);
    Size16IsSize(b.size);
    LengthCovers(Size16(b.size));
  }

  lemma Size16IsSize(size: nat)
    requires size <= 0xFFFF
    ensures Size16(size) as nat == size
  {
    hide BitNumbers.Number;
    assert size % U32 == size;
    BitNumbers.SixteenBits(size);
    BitNumbers.NumberIs(Size16(size));
  }

  // ---------------------------------------------------------------- linking in memory

  /** What vcmd_link_cmdbuf writes to make b jump to next, given the words it finds there. */
  function LinkInMemory(m: Memory, newHw: bool, b: Buf, next: Buf): Memory {
    var at := WordsAt(b.addr, b.size);
    StoreWords(m, at, LinkWords(newHw, LoadWords(m, at), Target(next.addr, next.id, Size16(next.size))))
  }

  function SetIeInMemory(m: Memory, b: Buf): Memory {
    var at := WordsAt(b.addr, b.size);
    StoreWords(m, at, SetIeWords(LoadWords(m, at)))
  }

  /** The pacing decision asks b to interrupt. */
  predicate Interrupts(dur: nat, b: Buf) {
    b.noInt && (dur + b.time) % U32 >= INT_MIN_SUM_OF_IMAGE_SIZE
  }

  function ChargeInMemory(m: Memory, dur: nat, b: Buf): Memory {
    if Interrupts(dur, b) then SetIeInMemory(m, b) else m
  }

  /** One round of the linking loop: it reads the queue and writes memory. */
  function LinkStepInMemory(cfg: Config, m: Memory, c: Core, i: nat): Memory
    requires i + 1 < |c.list|
  {
    if c.list[i + 1].done then m
    else ChargeInMemory(LinkInMemory(m, cfg.newHw, c.list[i], c.list[i + 1]), c.dur, c.list[i + 1])
  }

  function LinkLoopInMemory(cfg: Config, m: Memory, c: Core, i: nat): Memory
    decreases |c.list| - i
  {
    if i + 1 < |c.list| then
      LinkLoopInMemory(cfg, LinkStepInMemory(cfg, m, c, i), LinkStep(cfg, c, i), i + 1)
    else m
  }

  /** vcmd_link_cmdbuf on memory, word by word. */
  function LinkMemory(cfg: Config, m: Memory, c: Core, k: nat): Memory {
    var m' := if k < |c.list| && !c.list[k].linked then ChargeInMemory(m, 0, c.list[k]) else m;
    LinkLoopInMemory(cfg, m', LinkFirst(c, k), k)
  }

  /** Storing words into a buffer's JMP changes that JMP and no other. */
  lemma StoringShows(cfg: Config, base: nat, m: Memory, list: seq<Buf>, i: nat, w: Words)
    requires Mirrors(cfg, base, m, list) && i < |list| && Fit32(w)
    ensures Mirrors(cfg, base, StoreWords(m, WordsAt(list[i].addr, list[i].size), w),
                    list[i := list[i].(jmp := Decode(w))])
  {
    var at := WordsAt(list[i].addr, list[i].size);
    LoadsWhatWasStored(m, at, w);
    hide Decode, LenUnits;
    assert Shows(m, list[i]);
    OneBufferChanges(cfg, base, m, StoreWords(m, at, w), list, i, list[i].(jmp := Decode(w)));
  }

  /** A flag that memory knows nothing of. */
  lemma LinkedFlagIsNotInMemory(cfg: Config, base: nat, m: Memory, list: seq<Buf>, i: nat, v: bool)
    requires Mirrors(cfg, base, m, list) && i < |list|
    ensures Mirrors(cfg, base, m, list[i := list[i].(linked := v)])
  {
    hide Decode, LenUnits;
    assert Shows(m, list[i]);
    OneBufferChanges(cfg, base, m, m, list, i, list[i].(linked := v));
  }

  lemma ChargeReadsNoFlag(m: Memory, dur: nat, b: Buf, v: bool)
    ensures ChargeInMemory(m, dur, b.(linked := v)) == ChargeInMemory(m, dur, b)
  {
  }

  lemma ChargingShows(cfg: Config, base: nat, m: Memory, list: seq<Buf>, i: nat, dur: nat)
    requires Mirrors(cfg, base, m, list) && i < |list|
    ensures Mirrors(cfg, base, ChargeInMemory(m, dur, list[i]), list[i := Charge(dur, list[i]).1])
  {
    var w := LoadWords(m, WordsAt(list[i].addr, list[i].size));
    assert Shows(m, list[i]);
    if Interrupts(dur, list[i]) {
      SetIeDecodes(w);
      StoringShows(cfg, base, m, list, i, SetIeWords(w));
    } else {
      assert list[i := list[i]] == list;
    }
  }

  lemma LinkingShows(cfg: Config, base: nat, m: Memory, list: seq<Buf>, i: nat)
    requires Mirrors(cfg, base, m, list) && i + 1 < |list|
    ensures var next := list[i + 1];
            Mirrors(cfg, base, LinkInMemory(m, cfg.newHw, list[i], next),
                    list[i := list[i].(jmp := JumpTo(cfg.newHw, list[i].jmp, next.addr, next.id, next.units))])
  {
    var next := list[i + 1];
    assert Shows(m, list[i]) && Shows(m, next);
    var w := LoadWords(m, WordsAt(list[i].addr, list[i].size));
    var t := Target(next.addr, next.id, Size16(next.size));
    Size16Fits(next.size);
    LinkDecodes(cfg.newHw, w, t);
    AddressFits(base, next.id);
    hide Decode, LinkOp, Size16;
    StoringShows(cfg, base, m, list, i, LinkWords(cfg.newHw, w, t));
  }

  lemma AddressFits(base: nat, id: nat)
    requires base + TOTAL_DISCRETE_CMDBUF_NUM * CMDBUF_MAX_SIZE <= U32 * U32 && id < TOTAL_DISCRETE_CMDBUF_NUM
    ensures (base + id * CMDBUF_MAX_SIZE) / U32 < U32
  {
  }

  lemma LinkStepShows(cfg: Config, base: nat, m: Memory, c: Core, i: nat)
    requires Mirrors(cfg, base, m, c.list) && i + 1 < |c.list|
    ensures Mirrors(cfg, base, LinkStepInMemory(cfg, m, c, i), LinkStep(cfg, c, i).list)
  {
    if !c.list[i + 1].done {
      hide Mirrors, Decode, LinkInMemory, SetIeInMemory, Interrupts;
      LinkingShows(cfg, base, m, c.list, i);
      hide JumpTo, Charge;
      var next := c.list[i + 1];
      var m1 := LinkInMemory(m, cfg.newHw, c.list[i], next);
      var list1 := c.list[i := c.list[i].(jmp := JumpTo(cfg.newHw, c.list[i].jmp, next.addr, next.id, next.units))];
      LinkedFlagIsNotInMemory(cfg, base, m1, list1, i + 1, true);
      ChargingShows(cfg, base, m1, list1[i + 1 := next.(linked := true)], i + 1, c.dur);
      ChargeReadsNoFlag(m1, c.dur, next, true);
      var list2 := list1[i + 1 := next.(linked := true)];
      assert list2[i + 1 := Charge(c.dur, list2[i + 1]).1] == LinkStep(cfg, c, i).list;
    }
  }

  lemma LinkStepLength(cfg: Config, c: Core, i: nat)
    requires i + 1 < |c.list|
    ensures |LinkStep(cfg, c, i).list| == |c.list|
  {
  }

  lemma {:induction false} LinkLoopShows(cfg: Config, base: nat, m: Memory, c: Core, i: nat)
    requires Mirrors(cfg, base, m, c.list)
    ensures Mirrors(cfg, base, LinkLoopInMemory(cfg, m, c, i), LinkLoop(cfg, c, i).list)
    decreases |c.list| - i
  {
    hide Mirrors, LinkStepInMemory, LinkStep;
    if i + 1 < |c.list| {
      LinkStepLength(cfg, c, i);
      LinkStepShows(cfg, base, m, c, i);
      LinkLoopShows(cfg, base, LinkStepInMemory(cfg, m, c, i), LinkStep(cfg, c, i), i + 1);
    }
  }

  /** Linking, word by word in one memory for all buffers, shows in memory what linking does to the
      queue: no JMP is written over by that of another buffer. */
  lemma LinkShows(cfg: Config, base: nat, m: Memory, c: Core, k: nat)
    requires Mirrors(cfg, base, m, c.list)
    ensures Mirrors(cfg, base, LinkMemory(cfg, m, c, k), Link(cfg, c, k).list)
  {
    hide LinkLoopInMemory, LinkLoop, Mirrors, Decode, ChargeInMemory;
    if k < |c.list| && !c.list[k].linked {
      LinkedFlagIsNotInMemory(cfg, base, m, c.list, k, true);
      var list1 := c.list[k := c.list[k].(linked := true)];
      ChargingShows(cfg, base, m, list1, k, 0);
      ChargeReadsNoFlag(m, 0, c.list[k], true);
      assert LinkFirst(c, k).list == list1[k := Charge(0, list1[k]).1];
      LinkLoopShows(cfg, base, ChargeInMemory(m, 0, c.list[k]), LinkFirst(c, k), k);
    } else {
      LinkLoopShows(cfg, base, m, c, k);
    }
  }

  /** a is a JMP word of no queued buffer. */
  ghost predicate OutsideJumps(list: seq<Buf>, a: int) {
    forall i :: 0 <= i < |list| ==> !JmpWord(list[i].addr, list[i].size, a)
  }

  predicate SamePlaces(list: seq<Buf>, list': seq<Buf>) {
    |list'| == |list| && forall i :: 0 <= i < |list| ==> list'[i].addr == list[i].addr && list'[i].size == list[i].size
  }

  lemma StepKeepsPlaces(cfg: Config, c: Core, i: nat)
    requires i + 1 < |c.list|
    ensures SamePlaces(c.list, LinkStep(cfg, c, i).list)
  {
  }

  lemma StepWritesJumps(cfg: Config, m: Memory, c: Core, i: nat, a: int)
    requires i + 1 < |c.list| && OutsideJumps(c.list, a)
    ensures LinkStepInMemory(cfg, m, c, i)(a) == m(a)
  {
    hide LinkWords, SetIeWords, LoadWords, Interrupts;
    assert !JmpWord(c.list[i].addr, c.list[i].size, a) && !JmpWord(c.list[i + 1].addr, c.list[i + 1].size, a);
  }

  lemma {:induction false} LoopWritesJumps(cfg: Config, m: Memory, c: Core, i: nat, a: int)
    requires OutsideJumps(c.list, a)
    ensures LinkLoopInMemory(cfg, m, c, i)(a) == m(a)
    decreases |c.list| - i
  {
    hide LinkStepInMemory, LinkStep;
    if i + 1 < |c.list| {
      StepWritesJumps(cfg, m, c, i, a);
      StepKeepsPlaces(cfg, c, i);
      LoopWritesJumps(cfg, LinkStepInMemory(cfg, m, c, i), LinkStep(cfg, c, i), i + 1, a);
    }
  }

  /** Linking writes JMP words of queued buffers and nothing else. */
  lemma LinkWritesJumps(cfg: Config, m: Memory, c: Core, k: nat, a: int)
    requires OutsideJumps(c.list, a)
    ensures LinkMemory(cfg, m, c, k)(a) == m(a)
  {
    hide LinkLoopInMemory, LoadWords, SetIeWords, Interrupts;
    assert k < |c.list| ==> !JmpWord(c.list[k].addr, c.list[k].size, a);
    assert SamePlaces(c.list, LinkFirst(c, k).list);
    var m' := if k < |c.list| && !c.list[k].linked then ChargeInMemory(m, 0, c.list[k]) else m;
    LoopWritesJumps(cfg, m', LinkFirst(c, k), k, a);
  }

  /** The register-dump words of a queued buffer are JMP words of none. */
  lemma DumpsAreOutside(cfg: Config, base: nat, m: Memory, list: seq<Buf>, i: nat, a: int)
    requires Mirrors(cfg, base, m, list) && i < |list| && cfg.newHw && DumpWord(list[i].addr, list[i].size, a)
    ensures OutsideJumps(list, a)
  {
    forall j | 0 <= j < |list|
      ensures !JmpWord(list[j].addr, list[j].size, a)
    {
      if j == i {
        OwnSlot(cfg, list[i].addr, list[i].size);
        assert !Clash(cfg, list[i].addr, list[i].size, a);
      } else {
        WordsArePrivate(cfg, base, list, i, j, a);
      }
    }
  }

  // ---------------------------------------------------------------- sizes that do not fit

  /** On newer hardware the register dump of a buffer of 16 to 27 bytes hits the JMP of a full buffer in
      the slot before it. */
  lemma ShortDumpHitsPredecessor(base: nat, id: nat, size: nat) returns (a: int)
    requires 16 <= size < 28
    ensures var prev, addr := base + id * CMDBUF_MAX_SIZE, base + (id + 1) * CMDBUF_MAX_SIZE;
            DumpWord(addr, size, a) && JmpWord(prev, CMDBUF_MAX_SIZE, a)
  {
    a := WordsAt(base + (id + 1) * CMDBUF_MAX_SIZE, size) - 12;
  }

  /** For 16 bytes it hits exactly the address words and leaves the opcode word with RDY as it was:
      wherever a linked full buffer jumped to, the hardware now goes from it to the register dump. */
  lemma ShortDumpRedirectsPredecessor(m: Memory, cfg: Config, base: nat, id: nat, idDump: nat, regDump: nat)
    requires cfg.newHw && regDump < U32 * U32
    ensures var prev, addr := base + id * CMDBUF_MAX_SIZE, base + (id + 1) * CMDBUF_MAX_SIZE;
            var at := WordsAt(prev, CMDBUF_MAX_SIZE);
            var words := LoadWords(FillDumps(m, cfg, addr, 16, idDump, regDump), at);
            Decode(words).addr == regDump && words.op == LoadWords(m, at).op
  {
    var addr := base + (id + 1) * CMDBUF_MAX_SIZE;
    var at := addr - 16;
    assert WordsAt(base + id * CMDBUF_MAX_SIZE, CMDBUF_MAX_SIZE) == at && WordsAt(addr, 16) == addr;
    FullAddress(regDump);
    DumpOverLinkWords(m, cfg, addr, idDump, regDump);
    hide FillDumps, LoadWords, WordsAt, Decode;
    AddressWords(LoadWords(FillDumps(m, cfg, addr, 16, idDump, regDump), at));
    SplitAddress(regDump);
  }

  lemma FullAddress(x: nat)
    requires x < U32 * U32
    ensures x / U32 < U32
  {
  }

  lemma DumpOverLinkWords(m: Memory, cfg: Config, addr: nat, idDump: nat, regDump: nat)
    requires cfg.newHw && regDump / U32 < U32 && WordsAt(addr, 16) == addr
    ensures LoadWords(FillDumps(m, cfg, addr, 16, idDump, regDump), addr - 16)
            == LoadWords(m, addr - 16).(lo := regDump % U32, hi := regDump / U32)
  {
  }

  lemma AddressWords(w: Words)
    ensures Decode(w).addr == w.hi * U32 + w.lo
  {
  }

  /** A buffer of two slots' size in slot 1 ends where slot 2 ends: its JMP words are those of the buffer
      in slot 2, and linking it to that buffer makes that buffer jump to itself. */
  lemma OversizeJumpsToItself(m: Memory, newHw: bool, base: nat, first: Buf, second: Buf)
    requires base + TOTAL_DISCRETE_CMDBUF_NUM * CMDBUF_MAX_SIZE <= U32 * U32
    requires first.id == 1 && first.addr == base + CMDBUF_MAX_SIZE && first.size == 16384
    requires second.id == 2 && second.addr == base + 2 * CMDBUF_MAX_SIZE && second.size == 8192
    ensures var at := WordsAt(second.addr, second.size);
            && at == WordsAt(first.addr, first.size)
            && var jmp := Decode(LoadWords(LinkInMemory(m, newHw, first, second), at));
               jmp.rdy && jmp.addr == second.addr && (newHw ==> jmp.id == second.id)
  {
    var at, t := WordsAt(second.addr, second.size), Target(second.addr, second.id, Size16(second.size));
    AddressFits(base, 2);
    Size16Fits(second.size);
    LinkDecodes(newHw, LoadWords(m, at), t);
    LoadsWhatWasStored(m, at, LinkWords(newHw, LoadWords(m, at), t));
  }

  /** It also breaks the lookup by address: an address inside the second buffer finds the first. */
  lemma OversizeHidesItsNeighbour(cfg: Config, base: nat, a: Buf, b: Buf)
    requires a.id == 1 && a.addr == base + CMDBUF_MAX_SIZE && a.size == 16384 && !a.done
    requires b.id == 2 && b.addr == base + 2 * CMDBUF_MAX_SIZE && SizeFits(cfg, b.size) && !b.done
    ensures Executing(b, b.addr)
    ensures FindByAddr([a, b], b.addr) == Some(0) && FindById([a, b], 2) == Some(1)
  {
    assert [a, b][1..] == [b];
  }
}
