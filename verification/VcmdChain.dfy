/** The invariant of the VCMD queue and its preservation by linking, delinking, marking and starting. */
module VcmdChain {
  import opened JmpWords
  import opened VcmdSpec

  /** The done flags are a prefix of the queue, the linked flags a longer one. */
  predicate Pattern(list: seq<Buf>, d: nat, l: nat) {
    && d <= l <= |list|
    && (forall i :: 0 <= i < |list| ==> (list[i].done <==> i < d) && (list[i].linked <==> i < l))
    && (forall i :: 0 <= i < |list| && list[i].needRemove ==> i < d)
  }

  /** The JMP words lead the hardware to b. */
  predicate Names(cfg: Config, j: Jmp, b: Buf) {
    j.rdy && j.addr == b.addr && j.len == b.units && (cfg.newHw ==> j.id == b.id)
  }

  predicate SameTarget(j: Jmp, k: Jmp) {
    j.rdy == k.rdy && j.addr == k.addr && j.len == k.len && j.id == k.id
  }

  /** Equal except for the linked flag, the IE bit and the JMP target. */
  predicate SameBuf(a: Buf, b: Buf) {
    a == b.(linked := a.linked, jmp := a.jmp) && a.jmp.opcode == b.jmp.opcode && a.jmp.spare == b.jmp.spare
  }

  predicate Chain(cfg: Config, list: seq<Buf>, d: nat, l: nat) {
    forall i :: d <= i && i + 1 < l <= |list| ==> Names(cfg, list[i].jmp, list[i + 1])
  }

  predicate TailStops(list: seq<Buf>) {
    list != [] ==> !list[|list| - 1].jmp.rdy
  }

  predicate Differ(a: Buf, b: Buf) {
    a.id != b.id && a.addr != b.addr
  }

  predicate DistinctIds(list: seq<Buf>) {
    && (forall i :: 0 <= i < |list| ==> 0 < list[i].id < TOTAL_DISCRETE_CMDBUF_NUM)
    && (forall i, j {:trigger Differ(list[i], list[j])} :: 0 <= i < j < |list| ==> Differ(list[i], list[j]))
  }

  /** Ids and addresses stay distinct when nothing renames a buffer. */
  lemma KeepsDistinct(list: seq<Buf>, list': seq<Buf>)
    requires DistinctIds(list) && |list'| == |list|
    requires forall i :: 0 <= i < |list| ==> list'[i].id == list[i].id && list'[i].addr == list[i].addr
    ensures DistinctIds(list')
  {
    forall i, j | 0 <= i < j < |list|
      ensures Differ(list'[i], list'[j])
    {
      assert Differ(list[i], list[j]);
    }
  }

  /** The whole invariant, for d done and l linked buffers. */
  ghost predicate InvAt(cfg: Config, c: Core, d: nat, l: nat) {
    && Pattern(c.list, d, l)
    && Chain(cfg, c.list, d, l)
    && TailStops(c.list)
    && DistinctIds(c.list)
    && (c.working ==> l == |c.list| > 0 && c.regs.ready == c.rdy && c.rdy == (l - d + c.completed) % U32)
    && (!c.working ==> l == d && c.rdy == 0 && c.completed == 0)
    && (!c.working ==> forall i :: d <= i < |c.list| ==> c.list[i].id != c.abortedId)
  }

  ghost predicate Inv(cfg: Config, c: Core) {
    exists d: nat, l: nat :: InvAt(cfg, c, d, l)
  }

  /** How a queue looks after linking: buffers from m on are linked, JMP words from w on rewritten. */
  predicate Relinked(cfg: Config, old': seq<Buf>, new': seq<Buf>, w: int, m: nat) {
    |new'| == |old'| && forall i :: 0 <= i < |old'| ==> RelinkedAt(cfg, old', new', w, m, i)
  }

  predicate RelinkedAt(cfg: Config, old': seq<Buf>, new': seq<Buf>, w: int, m: nat, i: nat)
    requires i < |old'| == |new'|
  {
    && SameBuf(new'[i], old'[i])
    && (new'[i].linked <==> old'[i].linked || m <= i)
    && (old'[i].jmp.ie ==> new'[i].jmp.ie)
    && (if w <= i && i + 1 < |old'| then Names(cfg, new'[i].jmp, new'[i + 1])
        else SameTarget(new'[i].jmp, old'[i].jmp))
  }

  predicate SameRest(c: Core, c': Core) {
    c'.working == c.working && c'.abortedId == c.abortedId && c'.regs == c.regs && c'.completed == c.completed
  }

  lemma StepThenRelinked(cfg: Config, c: Core, i: nat, d: nat, new': seq<Buf>)
    requires i + 1 < |c.list| && d <= i + 1 && c.list[i].linked && !c.list[i + 1].done
    requires Relinked(cfg, LinkStep(cfg, c, i).list, new', i + 1, i + 2)
    ensures Relinked(cfg, c.list, new', Max(d - 1, i), i + 1)
  {
    var mid := LinkStep(cfg, c, i).list;
    var m := i + 1;
    forall j | 0 <= j < |c.list|
      ensures RelinkedAt(cfg, c.list, new', i, m, j)
    {
      assert RelinkedAt(cfg, mid, new', i + 1, i + 2, j);
      if j == i {
        assert RelinkedAt(cfg, mid, new', i + 1, i + 2, j + 1);
      }
    }
  }

  lemma WrapAdd(x: nat, y: nat)
    ensures (x % U32 + y) % U32 == (x + y) % U32
  {
  }

  /** How many buffers from index k on are still to be executed. */
  function UndoneFrom(list: seq<Buf>, k: nat): nat
    decreases |list| - k
  {
    if k < |list| then (if list[k].done then 0 else 1) + UndoneFrom(list, k + 1) else 0
  }

  lemma {:induction false} UndoneCount(list: seq<Buf>, k: nat, d: nat)
    requires d <= |list| && k <= |list|
    requires forall i :: 0 <= i < |list| ==> (list[i].done <==> i < d)
    ensures UndoneFrom(list, k) == |list| - Max(d, k)
    decreases |list| - k
  {
    if k < |list| {
      UndoneCount(list, k + 1, d);
    }
  }

  predicate SameDone(list: seq<Buf>, list': seq<Buf>) {
    |list'| == |list| && forall i :: 0 <= i < |list| ==> list'[i].done == list[i].done
  }

  lemma LinkStepCounts(cfg: Config, c: Core, i: nat)
    requires i + 1 < |c.list|
    ensures var c' := LinkStep(cfg, c, i);
            SameDone(c.list, c'.list) && c'.rdy == if c.list[i + 1].done then c.rdy else Inc(c.rdy)
  {
  }

  /** The ready count rises by one for every undone buffer the loop passes. */
  lemma {:induction false} LinkLoopCounts(cfg: Config, c: Core, i: nat)
    requires i < |c.list| && c.rdy < U32
    ensures var c' := LinkLoop(cfg, c, i);
            SameDone(c.list, c'.list) && c'.rdy == (c.rdy + UndoneFrom(c.list, i + 1)) % U32
    decreases |c.list| - i
  {
    if i + 1 < |c.list| {
      var c1 := LinkStep(cfg, c, i);
      LinkStepCounts(cfg, c, i);
      LinkLoopCounts(cfg, c1, i + 1);
      SameDoneCounts(c.list, c1.list, i + 2);
      WrapAdd(c.rdy + 1, UndoneFrom(c.list, i + 2));
    }
  }

  lemma {:induction false} SameDoneCounts(list: seq<Buf>, list': seq<Buf>, k: nat)
    requires SameDone(list, list')
    ensures UndoneFrom(list, k) == UndoneFrom(list', k)
    decreases |list| - k
  {
    if k < |list| {
      SameDoneCounts(list, list', k + 1);
    }
  }

  lemma {:induction false} LinkLoopRelinks(cfg: Config, c: Core, i: nat, d: nat)
    requires i < |c.list|
    requires Pattern(c.list, d, Max(d, i + 1))
    ensures var c' := LinkLoop(cfg, c, i);
            && Relinked(cfg, c.list, c'.list, Max(d - 1, i), Max(d, i + 1))
            && Pattern(c'.list, d, |c.list|)
            && SameRest(c, c')
    decreases |c.list| - i
  {
    if i + 1 < |c.list| {
      var c1 := LinkStep(cfg, c, i);
      if c.list[i + 1].done {
        LinkLoopRelinks(cfg, c1, i + 1, d);
      } else {
        assert Pattern(c1.list, d, i + 2);
        LinkLoopRelinks(cfg, c1, i + 1, d);
        StepThenRelinked(cfg, c, i, d, LinkLoop(cfg, c1, i + 1).list);
      }
    }
  }

  /** vcmd_link_cmdbuf from a linked node k with nothing beyond it linked and still to be executed:
      all buffers end up linked, and the ready count rises by the number of newly linked ones. */
  lemma LinkFromLinked(cfg: Config, c: Core, k: nat, d: nat, l: nat)
    requires k < l == Max(d, k + 1)
    requires Pattern(c.list, d, l) && c.rdy < U32
    ensures var c' := Link(cfg, c, k);
            && Relinked(cfg, c.list, c'.list, Max(d - 1, k), l)
            && Pattern(c'.list, d, |c.list|)
            && SameRest(c, c')
            && c'.rdy == (c.rdy + |c.list| - l) % U32
  {
    LinkLoopRelinks(cfg, c, k, d);
    LinkLoopCounts(cfg, c, k);
    UndoneCount(c.list, k + 1, d);
  }

  /** The same from the first unlinked node, which is counted as well. */
  lemma LinkFromUnlinked(cfg: Config, c: Core, d: nat)
    requires d < |c.list|
    requires Pattern(c.list, d, d) && c.rdy < U32
    ensures var c' := Link(cfg, c, d);
            && Relinked(cfg, c.list, c'.list, d, d)
            && Pattern(c'.list, d, |c.list|)
            && SameRest(c, c')
            && c'.rdy == (c.rdy + |c.list| - d) % U32
  {
    hide LinkLoop, RelinkedAt;
    var c1 := LinkFirst(c, d);
    assert Pattern(c1.list, d, d + 1);
    LinkLoopRelinks(cfg, c1, d, d);
    LinkLoopCounts(cfg, c1, d);
    UndoneCount(c1.list, d + 1, d);
    WrapAdd(c.rdy + 1, |c.list| - (d + 1));
    FirstThenRelinked(cfg, c, d, Link(cfg, c, d).list);
  }

  lemma FirstThenRelinked(cfg: Config, c: Core, d: nat, new': seq<Buf>)
    requires d < |c.list| && !c.list[d].linked
    requires Relinked(cfg, LinkFirst(c, d).list, new', d, d + 1)
    ensures Relinked(cfg, c.list, new', d, d)
  {
    var mid, m := LinkFirst(c, d).list, d + 1;
    forall j | 0 <= j < |c.list|
      ensures RelinkedAt(cfg, c.list, new', d, d, j)
    {
      assert RelinkedAt(cfg, mid, new', d, m, j);
    }
  }

  lemma RelinkedKeeps(cfg: Config, list: seq<Buf>, new': seq<Buf>, w: int, d: nat, l: nat)
    requires Pattern(list, d, l) && Relinked(cfg, list, new', w, l) && w <= Max(d, l - 1)
    requires Chain(cfg, list, d, l) && TailStops(list) && DistinctIds(list)
    ensures Chain(cfg, new', d, |list|) && TailStops(new') && DistinctIds(new')
  {
    forall i | 0 <= i < |list|
      ensures SameBuf(new'[i], list[i])
    {
      assert RelinkedAt(cfg, list, new', w, l, i);
    }
    forall i | d <= i && i + 1 < |list|
      ensures Names(cfg, new'[i].jmp, new'[i + 1])
    {
      assert RelinkedAt(cfg, list, new', w, l, i);
      assert RelinkedAt(cfg, list, new', w, l, i + 1);
    }
    if list != [] {
      assert RelinkedAt(cfg, list, new', w, l, |list| - 1);
    }
    KeepsDistinct(list, new');
  }

  lemma {:induction false} UnlinkPattern(list: seq<Buf>, d: nat, k: nat, l: nat)
    requires d <= k <= l <= |list|
    requires forall i :: 0 <= i < |list| ==> (list[i].done <==> i < d) && (list[i].linked <==> i < d || k <= i < l)
    requires forall i :: 0 <= i < |list| && list[i].needRemove ==> i < d
    ensures var new' := UnlinkFrom(list, k);
            && |new'| == |list|
            && Pattern(new', d, d)
            && forall i :: 0 <= i < |list| ==> new'[i] == list[i].(linked := i < d)
    decreases |list| - k
  {
    if k < |list| && list[k].linked {
      UnlinkPattern(list[k := list[k].(linked := false)], d, k + 1, l);
    }
  }

  /** The backward loop may stop at the first done buffer: nothing before it is left unmarked. */
  lemma {:induction false} MarkBackMarks(c: Core, r: nat, d: nat, top: nat)
    requires d <= r <= top <= |c.list|
    requires forall i :: 0 <= i < |c.list| ==> (c.list[i].done <==> i < d || r <= i < top)
    ensures var c' := MarkBack(c, r);
            && c' == c.(list := c'.list, completed := c.completed + r - d)
            && |c'.list| == |c.list|
            && (forall i :: 0 <= i < |c.list| ==>
                  c'.list[i] == if d <= i < r then c.list[i].(done := true, status := StatusOk) else c.list[i])
    decreases r
  {
    if r > d {
      var c1 := c.(list := c.list[r - 1 := c.list[r - 1].(done := true, status := StatusOk)],
                   completed := c.completed + 1);
      MarkBackMarks(c1, r - 1, d, top);
    }
  }

  lemma {:induction false} FirstUndoneAt(list: seq<Buf>, k: nat, d: nat, l: nat)
    requires Pattern(list, d, l) && k <= d
    ensures FirstUndone(list, k) == d
    decreases d - k
  {
    if k < d {
      FirstUndoneAt(list, k + 1, d, l);
    }
  }

  lemma {:induction false} LastLinkedAt(list: seq<Buf>, p: nat, l: nat)
    requires l <= p <= |list|
    requires forall i :: 0 <= i < p ==> (list[i].linked <==> i < l)
    ensures LastLinked(list, p) == if l == 0 then 0 else l - 1
    decreases p
  {
    if p > l {
      LastLinkedAt(list, p - 1, l);
    }
  }

  lemma {:induction false} SmallPool(s: seq<int>, k: nat)
    requires forall i :: 0 <= i < |s| ==> 0 < s[i] <= k
    requires forall i, j :: 0 <= i < j < |s| ==> s[i] != s[j]
    ensures |s| <= k
    decreases k
  {
    assert s != [] ==> 0 < s[0] <= k;
    if i :| 0 <= i < |s| && s[i] == k {
      var t := s[..i] + s[i + 1..];
      SmallPool(t, k - 1);
    } else if k > 0 {
      SmallPool(s, k - 1);
    }
  }

  /** Ids are distinct and nonzero, so a queue never holds more than 255 buffers. */
  lemma QueueIsShort(list: seq<Buf>)
    requires DistinctIds(list)
    ensures |list| < TOTAL_DISCRETE_CMDBUF_NUM
  {
    var ids := seq(|list|, i requires 0 <= i < |list| => list[i].id);
    forall i, j | 0 <= i < j < |list|
      ensures ids[i] != ids[j]
    {
      assert Differ(list[i], list[j]);
    }
    SmallPool(ids, TOTAL_DISCRETE_CMDBUF_NUM - 1);
  }
}
