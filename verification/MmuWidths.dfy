/** Regions whose page count is not their width. The shipped IN region counts fewer pages than it is
    wide, the others one more. Up to one more, a region behaves like the exact region of the pages it
    claims, except for the end recorded in the free node at its top; beyond that it can lose pages. One
    that counts more pages than it is wide can hand out a page of the next region. */
module MmuWidths {
  import opened Wrappers
  import opened MmuSpec
  import opened MmuRegions
  import opened MmuMapping
  import opened MmuRuns

  /** The node that ends its page count after its start. */
  function Trim(n: Node): Node {
    n.(mtlbEnd := (n.pages + n.stlbStart) / MMU_STLB_4K_ENTRY_NUM + n.mtlbStart,
       stlbEnd := (n.pages + n.stlbStart) % MMU_STLB_4K_ENTRY_NUM)
  }

  function TrimAll(s: seq<Node>): (t: seq<Node>)
    ensures |t| == |s| && forall i :: 0 <= i < |s| ==> t[i] == Trim(s[i])
  {
    seq(|s|, i requires 0 <= i < |s| => Trim(s[i]))
  }

  function TrimState(s: State): State {
    State(Region(TrimAll(s.r.free), s.r.mapped), s.table)
  }

  /** A node below top that ends its page count after its start, or at its top end records hi instead. */
  predicate Loose(n: Node, top: nat, hi: nat) {
    && n.stlbStart < MMU_STLB_4K_ENTRY_NUM && n.stlbEnd < MMU_STLB_4K_ENTRY_NUM
    && n.pages > 0 && Start(n) + n.pages <= top
    && (End(n) == Start(n) + n.pages || (End(n) == hi && Start(n) + n.pages == top))
  }

  predicate AllLoose(s: seq<Node>, top: nat, hi: nat) {
    forall i :: 0 <= i < |s| ==> Loose(s[i], top, hi)
  }

  /** The invariant of a region that claims the pages [lo, top) and whose nodes may record the end hi. */
  ghost predicate WidthInv(s: State, lo: nat, top: nat, hi: nat) {
    top <= hi + 1 && AllLoose(s.r.free, top, hi) && StateInv(TrimState(s), lo, top)
  }

  // ---------------------------------------------------------------- trimming commutes with every operation

  lemma TrimIs(n: Node)
    ensures Start(Trim(n)) == Start(n) && End(Trim(n)) == Start(n) + n.pages
    ensures Trim(n).stlbEnd < MMU_STLB_4K_ENTRY_NUM
    ensures Normal(n) ==> Trim(n) == n
  {
    LinearSplits(n.mtlbStart, n.stlbStart, n.pages);
    if Normal(n) {
      LinearInjective(n.mtlbEnd, n.stlbEnd, Trim(n).mtlbEnd, Trim(n).stlbEnd);
    }
  }

  /** a claims the page hi as its last but records hi as its end, where b starts. */
  predicate Blurs(a: Node, b: Node, hi: nat) {
    End(a) == hi && Start(a) + a.pages == hi + 1 && Start(b) == hi
  }

  lemma MeetsTrim(a: Node, b: Node, top: nat, hi: nat)
    requires Loose(a, top, hi) && Loose(b, top, hi) && top <= hi + 1 && !Blurs(a, b, hi)
    ensures Meets(a, b) <==> Meets(Trim(a), Trim(b))
    ensures Meets(a, b) ==> Normal(a) && Start(b) == Start(a) + a.pages
  {
    TrimIs(a);
    LinearInjective(a.mtlbEnd, a.stlbEnd, b.mtlbStart, b.stlbStart);
    LinearInjective(Trim(a).mtlbEnd, Trim(a).stlbEnd, b.mtlbStart, b.stlbStart);
  }

  lemma JoinTrim(a: Node, b: Node, top: nat, hi: nat)
    requires Loose(a, top, hi) && Loose(b, top, hi) && top <= hi + 1 && !Blurs(a, b, hi) && Meets(a, b)
    ensures Loose(JoinBack(a, b), top, hi) && Trim(JoinBack(a, b)) == JoinBack(Trim(a), Trim(b))
    ensures Loose(JoinFront(a, b), top, hi) && Trim(JoinFront(a, b)) == JoinFront(Trim(a), Trim(b))
  {
    MeetsTrim(a, b, top, hi);
    TrimIs(b);
    var j := JoinFront(a, b);
    TrimIs(j);
    TrimIs(JoinBack(a, b));
    LinearInjective(Trim(j).mtlbEnd, Trim(j).stlbEnd, Trim(b).mtlbEnd, Trim(b).stlbEnd);
  }

  lemma {:induction false} TouchingTrim(free: seq<Node>, p: Node, k: nat, top: nat, hi: nat)
    requires AllLoose(free, top, hi) && Loose(p, top, hi) && top <= hi + 1 && k <= |free|
    requires forall i :: 0 <= i < |free| ==> !Blurs(free[i], p, hi) && !Blurs(p, free[i], hi)
    ensures FindTouching(TrimAll(free), Trim(p), k) == FindTouching(free, p, k)
    decreases |free| - k
  {
    if k < |free| {
      MeetsTrim(free[k], p, top, hi);
      MeetsTrim(p, free[k], top, hi);
      TouchingTrim(free, p, k + 1, top, hi);
    }
  }

  lemma {:induction false} BehindTrim(free: seq<Node>, p: Node, k: nat, top: nat, hi: nat)
    requires AllLoose(free, top, hi) && Loose(p, top, hi) && top <= hi + 1 && k <= |free|
    requires forall i :: 0 <= i < |free| ==> !Blurs(p, free[i], hi)
    ensures FindBehind(TrimAll(free), Trim(p), k) == FindBehind(free, p, k)
    decreases |free| - k
  {
    if k < |free| {
      MeetsTrim(p, free[k], top, hi);
      BehindTrim(free, p, k + 1, top, hi);
    }
  }

  lemma {:induction false} InFrontTrim(free: seq<Node>, p: Node, k: nat, top: nat, hi: nat)
    requires AllLoose(free, top, hi) && Loose(p, top, hi) && top <= hi + 1 && k <= |free|
    requires forall i :: 0 <= i < |free| ==> !Blurs(free[i], p, hi)
    ensures FindInFront(TrimAll(free), Trim(p), k) == FindInFront(free, p, k)
    decreases |free| - k
  {
    if k < |free| {
      MeetsTrim(free[k], p, top, hi);
      InFrontTrim(free, p, k + 1, top, hi);
    }
  }

  lemma UpdateTrim(s: seq<Node>, i: nat, n: Node, top: nat, hi: nat)
    requires i < |s| && AllLoose(s, top, hi) && Loose(n, top, hi)
    ensures AllLoose(s[i := n], top, hi) && TrimAll(s[i := n]) == TrimAll(s)[i := Trim(n)]
  {
  }

  lemma RemoveTrim(s: seq<Node>, i: nat, top: nat, hi: nat)
    requires i < |s| && AllLoose(s, top, hi)
    ensures AllLoose(RemoveAt(s, i), top, hi) && TrimAll(RemoveAt(s, i)) == RemoveAt(TrimAll(s), i)
  {
  }

  /** A page held once is not blurred. */
  lemma HeldOnce(free: seq<Node>, p: Node, hi: nat, i: nat)
    requires i < |free| && free[i].pages > 0 && p.pages > 0 && End(p) == Start(p) + p.pages
    requires Hits(TrimAll(free), hi) + Hit(p, hi) <= 1
    ensures !Blurs(free[i], p, hi)
  {
    if Blurs(free[i], p, hi) {
      TrimIs(free[i]);
      Member(TrimAll(free), i, hi);
    }
  }

  /** The two joins of freeing, in either order, commute with trimming. */
  lemma InsertFreeTrim(free: seq<Node>, p: Node, top: nat, hi: nat)
    requires AllLoose(free, top, hi) && Loose(p, top, hi) && top <= hi + 1
    requires End(p) == Start(p) + p.pages && Hits(TrimAll(free), hi) + Hit(p, hi) <= 1
    ensures AllLoose(InsertFree(free, p), top, hi)
    ensures TrimAll(InsertFree(free, p)) == InsertFree(TrimAll(free), Trim(p))
  {
    forall i | 0 <= i < |free|
      ensures !Blurs(free[i], p, hi) && !Blurs(p, free[i], hi)
    {
      HeldOnce(free, p, hi, i);
    }
    TouchingTrim(free, p, 0, top, hi);
    var j := FindTouching(free, p, 0);
    if j == |free| {
      assert TrimAll([p] + free) == [Trim(p)] + TrimAll(free);
    } else {
      MeetsTrim(free[j], p, top, hi);
      if Meets(free[j], p) {
        JoinTrim(free[j], p, top, hi);
        var joined := free[j := JoinBack(free[j], p)];
        UpdateTrim(free, j, JoinBack(free[j], p), top, hi);
        JoinBehindTrim(joined, j, top, hi);
      } else {
        MeetsTrim(p, free[j], top, hi);
        JoinTrim(p, free[j], top, hi);
        var joined := free[j := JoinFront(p, free[j])];
        UpdateTrim(free, j, JoinFront(p, free[j]), top, hi);
        JoinInFrontTrim(joined, j, top, hi);
      }
    }
  }

  function SecondJoinBehind(joined: seq<Node>, j: nat): seq<Node>
    requires j < |joined|
  {
    var k := FindBehind(joined, joined[j], 0);
    if k == |joined| then joined else RemoveAt(joined[k := JoinFront(joined[j], joined[k])], j)
  }

  function SecondJoinInFront(joined: seq<Node>, j: nat): seq<Node>
    requires j < |joined|
  {
    var k := FindInFront(joined, joined[j], 0);
    if k == |joined| then joined else RemoveAt(joined[k := JoinBack(joined[k], joined[j])], j)
  }

  lemma JoinBehindTrim(joined: seq<Node>, j: nat, top: nat, hi: nat)
    requires AllLoose(joined, top, hi) && j < |joined| && top <= hi + 1
    requires End(joined[j]) == Start(joined[j]) + joined[j].pages
    ensures AllLoose(SecondJoinBehind(joined, j), top, hi)
    ensures TrimAll(SecondJoinBehind(joined, j)) == SecondJoinBehind(TrimAll(joined), j)
  {
    BehindTrim(joined, joined[j], 0, top, hi);
    var k := FindBehind(joined, joined[j], 0);
    if k < |joined| {
      JoinTrim(joined[j], joined[k], top, hi);
      var n := JoinFront(joined[j], joined[k]);
      UpdateTrim(joined, k, n, top, hi);
      RemoveTrim(joined[k := n], j, top, hi);
    }
  }

  lemma JoinInFrontTrim(joined: seq<Node>, j: nat, top: nat, hi: nat)
    requires AllLoose(joined, top, hi) && j < |joined| && top <= hi + 1 && Start(joined[j]) < hi
    ensures AllLoose(SecondJoinInFront(joined, j), top, hi)
    ensures TrimAll(SecondJoinInFront(joined, j)) == SecondJoinInFront(TrimAll(joined), j)
  {
    InFrontTrim(joined, joined[j], 0, top, hi);
    var k := FindInFront(joined, joined[j], 0);
    if k < |joined| {
      JoinTrim(joined[k], joined[j], top, hi);
      var n := JoinBack(joined[k], joined[j]);
      UpdateTrim(joined, k, n, top, hi);
      RemoveTrim(joined[k := n], j, top, hi);
    }
  }

  lemma {:induction false} FindFreeTrim(free: seq<Node>, n: nat)
    ensures FindFree(TrimAll(free), n) == FindFree(free, n)
  {
    if free != [] && free[0].pages < n {
      assert TrimAll(free)[1..] == TrimAll(free[1..]);
      FindFreeTrim(free[1..], n);
    }
  }

  lemma BackPartTrim(f: Node, n: nat, top: nat, hi: nat)
    requires Loose(f, top, hi) && n < f.pages
    ensures Loose(BackPart(f, n), top, hi) && Trim(BackPart(f, n)) == BackPart(Trim(f), n)
  {
    var b := BackPart(f, n);
    LinearSplits(f.mtlbStart, f.stlbStart, n);
    TrimIs(b);
    TrimIs(f);
    LinearInjective(Trim(b).mtlbEnd, Trim(b).stlbEnd, Trim(f).mtlbEnd, Trim(f).stlbEnd);
  }

  lemma SplitTrim(r: Region, i: nat, n: nat, key: Key, phys: seq<bv64>, top: nat, hi: nat)
    requires AllLoose(r.free, top, hi) && i < |r.free| && 0 < n <= r.free[i].pages
    ensures var r' := Split(r, i, n, key, phys);
            && AllLoose(r'.free, top, hi)
            && Region(TrimAll(r'.free), r'.mapped) == Split(Region(TrimAll(r.free), r.mapped), i, n, key, phys)
  {
    var f := r.free[i];
    assert FrontPart(Trim(f), n, key, phys) == FrontPart(f, n, key, phys);
    if f.pages == n {
      RemoveTrim(r.free, i, top, hi);
    } else {
      BackPartTrim(f, n, top, hi);
      UpdateTrim(r.free, i, BackPart(f, n), top, hi);
    }
  }

  lemma MapTrim(s: State, lo: nat, top: nat, hi: nat, key: Key, phys: seq<bv64>)
    requires WidthInv(s, lo, top, hi) && phys != []
    ensures Map(s, key, phys).Some? <==> Map(TrimState(s), key, phys).Some?
    ensures Map(s, key, phys).Some? ==>
              var s' := Map(s, key, phys).value;
              AllLoose(s'.r.free, top, hi) && TrimState(s') == Map(TrimState(s), key, phys).value
  {
    FindFreeTrim(s.r.free, |phys|);
    var i := FindFree(s.r.free, |phys|);
    if i.Some? {
      TrimIs(s.r.free[i.value]);
      SplitTrim(s.r, i.value, |phys|, key, phys, top, hi);
    }
  }

  lemma UnmapTrim(s: State, lo: nat, top: nat, hi: nat, key: Key)
    requires WidthInv(s, lo, top, hi)
    ensures Unmap(s, key).Some? <==> Unmap(TrimState(s), key).Some?
    ensures Unmap(s, key).Some? ==>
              var s' := Unmap(s, key).value;
              AllLoose(s'.r.free, top, hi) && TrimState(s') == Unmap(TrimState(s), key).value
  {
    var k := FindKey(s.r.mapped, key, 0);
    if k < |s.r.mapped| {
      var n := s.r.mapped[k];
      NodeInside(TrimState(s).r, lo, top, n);
      TrimIs(n);
      assert Loose(n, top, hi);
      if Holds(n, hi) {
        Member(s.r.mapped, k, hi);
      }
      assert Hits(TrimAll(s.r.free), hi) + Hits(s.r.mapped, hi) <= 1;
      InsertFreeTrim(s.r.free, n, top, hi);
    }
  }

  /** Trimming is a simulation: the region does to its trimmed nodes what the exact region would do. */
  lemma ApplyTrim(s: State, lo: nat, top: nat, hi: nat, op: Op)
    requires WidthInv(s, lo, top, hi) && (op.OpMap? ==> op.phys != [])
    ensures TrimState(Apply(s, op)) == Apply(TrimState(s), op)
    ensures WidthInv(Apply(s, op), lo, top, hi)
  {
    ApplyKeeps(TrimState(s), lo, top, op);
    match op
    case OpMap(key, phys) => MapTrim(s, lo, top, hi, key, phys);
    case OpUnmap(key) => UnmapTrim(s, lo, top, hi, key);
  }

  lemma {:induction false} RunTrim(s: State, lo: nat, top: nat, hi: nat, ops: seq<Op>)
    requires WidthInv(s, lo, top, hi) && Sized(ops)
    ensures TrimState(RunOps(s, ops)) == RunOps(TrimState(s), ops)
    ensures WidthInv(RunOps(s, ops), lo, top, hi)
    decreases |ops|
  {
    if ops != [] {
      hide WidthInv, Apply, TrimState;
      ApplyTrim(s, lo, top, hi, ops[0]);
      RunTrim(Apply(s, ops[0]), lo, top, hi, ops[1..]);
    }
  }

  // ---------------------------------------------------------------- regions of any count

  /** A region as CreateNode sets it up, over a zeroed table: one free node from lo to hi that claims
      the given number of pages. */
  predicate Claims(s: State, lo: nat, hi: nat, pages: nat) {
    && |s.r.free| == 1 && s.r.mapped == []
    && var n := s.r.free[0];
       && n.stlbStart < MMU_STLB_4K_ENTRY_NUM && n.stlbEnd < MMU_STLB_4K_ENTRY_NUM
       && Start(n) == lo && End(n) == hi && n.pages == pages > 0
       && lo + pages <= |s.table| && forall p :: lo <= p < lo + pages ==> s.table[p] == 0
  }

  lemma ClaimsKeeps(s: State, lo: nat, hi: nat, pages: nat)
    requires Claims(s, lo, hi, pages) && lo + pages <= hi + 1
    ensures WidthInv(s, lo, lo + pages, hi)
  {
    TrimIs(s.r.free[0]);
    CreatedKeeps(TrimState(s), lo, lo + pages);
  }

  /** The claimed pages are each in exactly one node, free or mapped, by the pages the node counts, and
      no other page is in any. */
  ghost predicate Partitioned(s: State, lo: nat, top: nat) {
    forall p :: Hits(TrimAll(s.r.free), p) + Hits(s.r.mapped, p) == if lo <= p < top then 1 else 0
  }

  /** A region that claims at most one page more than it has. In every reachable state the claimed pages
      are partitioned; page counts add up to the claim; mapped nodes record their end exactly; no two free
      nodes touch; and an entry is nonzero iff its page is mapped. */
  lemma EveryClaimIsPartitioned(s: State, lo: nat, hi: nat, pages: nat, ops: seq<Op>)
    requires Claims(s, lo, hi, pages) && lo + pages <= hi + 1 && Sized(ops)
    ensures var s' := RunOps(s, ops);
            && Partitioned(s', lo, lo + pages)
            && Pages(TrimAll(s'.r.free)) + Pages(s'.r.mapped) == pages
            && (forall n :: n in s'.r.mapped ==> MappedInside(n, lo, lo + pages))
            && (forall a, b :: a in TrimAll(s'.r.free) && b in TrimAll(s'.r.free) ==> End(a) != Start(b))
            && lo + pages <= |s'.table|
            && (forall p :: lo <= p < lo + pages ==> (s'.table[p] != 0 <==> Hits(s'.r.mapped, p) == 1))
  {
    ClaimsKeeps(s, lo, hi, pages);
    RunTrim(s, lo, lo + pages, hi, ops);
    hide WidthInv, RunOps, Claims;
    var s' := RunOps(s, ops);
    WidthState(s', lo, lo + pages, hi);
    NodesAreExact(TrimState(s'), lo, lo + pages);
  }

  predicate MappedInside(n: Node, lo: nat, top: nat) {
    lo <= Start(n) && End(n) == Start(n) + n.pages <= top && n.stlbEnd < MMU_STLB_4K_ENTRY_NUM
  }

  lemma NodesAreExact(t: State, lo: nat, top: nat)
    requires StateInv(t, lo, top)
    ensures forall n :: n in t.r.mapped ==> MappedInside(n, lo, top)
    ensures forall a, b :: a in t.r.free && b in t.r.free ==> End(a) != Start(b)
    ensures forall p :: lo <= p < top ==> (t.table[p] != 0 <==> Hits(t.r.mapped, p) == 1)
  {
    forall n | n in t.r.mapped
      ensures MappedInside(n, lo, top)
    {
      NodeInside(t.r, lo, top, n);
    }
    forall a, b | a in t.r.free && b in t.r.free
      ensures End(a) != Start(b)
    {
      MeetsIsLinear(a, b);
    }
    forall p | lo <= p < top
      ensures t.table[p] != 0 <==> Hits(t.r.mapped, p) == 1
    {
      TableIsExact(t, lo, top, p);
    }
  }

  lemma WidthState(s: State, lo: nat, top: nat, hi: nat)
    requires WidthInv(s, lo, top, hi)
    ensures StateInv(TrimState(s), lo, top)
  {
  }

  /** Translation in every reachable state of such a region. */
  lemma EveryClaimTranslates(s: State, lo: nat, hi: nat, pages: nat, ops: seq<Op>,
                             mtlb: seq<nat>, stlbPhysical: nat, n: Node, k: nat, off: nat)
    requires Claims(s, lo, hi, pages) && lo + pages <= hi + 1 && Sized(ops) && |s.table| == TABLE_ENTRIES
    requires MtlbFilled(mtlb, stlbPhysical) && Addressable(stlbPhysical)
    requires n in RunOps(s, ops).r.mapped && k < n.pages && off < 4096
    ensures k < |n.phys|
    ensures Walk(mtlb, stlbPhysical, RunOps(s, ops).table, BusAddress(n) + 4096 * k + off) == Some(n.phys[k])
            <==> n.phys[k] & 0xFFF == 0 && n.phys[k] >> 40 == 0
  {
    ClaimsKeeps(s, lo, hi, pages);
    RunTrim(s, lo, lo + pages, hi, ops);
    TableLength(s, ops);
    TranslationIsCorrect(TrimState(RunOps(s, ops)), lo, lo + pages, mtlb, stlbPhysical, n, k, off);
  }

  /** Every page of every buffer is present and writable in every reachable state. */
  lemma EveryClaimIsWritable(s: State, lo: nat, hi: nat, pages: nat, ops: seq<Op>, n: Node, k: nat)
    requires Claims(s, lo, hi, pages) && lo + pages <= hi + 1 && Sized(ops)
    requires n in RunOps(s, ops).r.mapped && k < n.pages
    ensures var table := RunOps(s, ops).table;
            Start(n) + k < |table| && table[Start(n) + k] & 0xF == 5
  {
    hide RunOps, Claims, WidthInv, TrimState, Sized, Start;
    ClaimsKeeps(s, lo, hi, pages);
    RunTrim(s, lo, lo + pages, hi, ops);
    WidthWritable(RunOps(s, ops), lo, lo + pages, hi, n, k);
  }

  lemma WidthWritable(s: State, lo: nat, top: nat, hi: nat, n: Node, k: nat)
    requires WidthInv(s, lo, top, hi) && n in s.r.mapped && k < n.pages
    ensures Start(n) + k < |s.table| && s.table[Start(n) + k] & 0xF == 5
  {
    WidthState(s, lo, top, hi);
    hide StateInv, WidthInv, TrimAll;
    MappedIsWritable(TrimState(s), lo, top, n, k);
  }

  /** Isolation: after any further maps and unmaps of other buffers of the region, each byte of a mapped
      buffer still translates to the page it was mapped to. */
  lemma TranslationIsIsolated(s: State, lo: nat, top: nat, hi: nat, ops: seq<Op>, mtlb: seq<nat>, stlbPhysical: nat,
                              n: Node, k: nat, off: nat)
    requires WidthInv(s, lo, top, hi) && Sized(ops) && |s.table| == TABLE_ENTRIES
    requires MtlbFilled(mtlb, stlbPhysical) && Addressable(stlbPhysical)
    requires n in s.r.mapped && OpUnmap(n.key) !in ops && k < n.pages && off < 4096
    ensures Walk(mtlb, stlbPhysical, RunOps(s, ops).table, BusAddress(n) + 4096 * k + off)
            == Walk(mtlb, stlbPhysical, s.table, BusAddress(n) + 4096 * k + off) != None
  {
    RunTrim(s, lo, top, hi, ops);
    var t, t' := TrimState(s), TrimState(RunOps(s, ops));
    WidthState(RunOps(s, ops), lo, top, hi);
    RunKeepsBuffer(t, lo, top, ops, n);
    TableLength(s, ops);
    WalkHits(t, lo, top, mtlb, stlbPhysical, n, k, off);
    WalkHits(t', lo, top, mtlb, stlbPhysical, n, k, off);
  }

  // ---------------------------------------------------------------- claiming too much

  /** Some mapped buffer reaches past the region. */
  ghost predicate Escapes(s: State, hi: nat) {
    exists n :: n in s.r.mapped && End(n) > hi
  }

  /** Some run of a region maps a page outside it iff the region claims more pages than it has. */
  lemma EscapesIffOverclaimed(s: State, lo: nat, hi: nat, pages: nat)
    requires Claims(s, lo, hi, pages)
    ensures (exists ops :: Sized(ops) && Escapes(RunOps(s, ops), hi)) <==> lo + pages > hi
  {
    if lo + pages <= hi {
      forall ops | Sized(ops)
        ensures !Escapes(RunOps(s, ops), hi)
      {
        EveryClaimIsPartitioned(s, lo, hi, pages, ops);
      }
    } else {
      var phys := Copies(pages, 0);
      MapsEverything(s, lo, hi, pages, Key(0, 0), phys);
      var ops := [OpMap(Key(0, 0), phys)];
      assert ops[1..] == [];
      assert RunOps(s, ops) == Apply(s, ops[0]);
      assert Sized(ops) && Escapes(RunOps(s, ops), hi);
    }
  }

  /** A buffer of all the claimed pages gets them, up to lo + pages. */
  lemma MapsEverything(s: State, lo: nat, hi: nat, pages: nat, key: Key, phys: seq<bv64>)
    requires Claims(s, lo, hi, pages) && |phys| == pages
    ensures Map(s, key, phys).Some?
    ensures var n := FrontPart(s.r.free[0], pages, key, phys);
            Map(s, key, phys).value.r.mapped == [n] && Start(n) == lo && End(n) == lo + pages
  {
    assert FindFree(s.r.free, pages) == Some(0);
    LinearSplits(s.r.free[0].mtlbStart, s.r.free[0].stlbStart, pages);
  }

  /** The free node left when all but the last pages - 1 - width claimed pages are mapped: it starts
      behind the end it records. */
  lemma PastTheEnd(f: Node, w: nat)
    requires f.stlbStart < MMU_STLB_4K_ENTRY_NUM && f.stlbEnd < MMU_STLB_4K_ENTRY_NUM
    requires End(f) == Start(f) + w && w + 1 < f.pages
    ensures var rest := BackPart(f, w);
            && rest.mtlbStart == f.mtlbEnd && rest.stlbStart == f.stlbEnd && rest.pages == f.pages - w
            && rest.mtlbEnd == f.mtlbEnd && rest.stlbEnd == f.stlbEnd
  {
    LinearSplits(f.mtlbStart, f.stlbStart, w);
    LinearInjective(BackPart(f, w).mtlbStart, BackPart(f, w).stlbStart, f.mtlbEnd, f.stlbEnd);
  }

  /** A buffer of n pages that all have the same address. */
  function Copies(n: nat, page: bv64): (z: seq<bv64>)
    ensures |z| == n && forall i :: 0 <= i < n ==> z[i] == page
  {
    seq(n, _ => page)
  }

  /** Mapping the first w pages of a free node, and then one more. */
  function Filling(w: nat): seq<Op> {
    (if w == 0 then [] else [OpMap(Key(0, 0), Copies(w, 0))]) + [OpMap(Key(1, 0), Copies(1, 0)), OpUnmap(Key(1, 0))]
  }

  /** The page mapped last is freed again: it meets the end the rest records, not its start, and the
      joined node then meets itself. All that was free is gone. */
  lemma RestIsLost(s: State, f: Node)
    requires s.r.free == [f] && f.pages > 1 && f.stlbStart < MMU_STLB_4K_ENTRY_NUM
    requires f.mtlbStart == f.mtlbEnd && f.stlbStart == f.stlbEnd && Start(f) + 1 <= |s.table|
    requires forall n :: n in s.r.mapped ==> n.key != Key(1, 0)
    ensures var s' := RunOps(s, [OpMap(Key(1, 0), Copies(1, 0)), OpUnmap(Key(1, 0))]);
            s'.r.free == [] && s'.r.mapped == s.r.mapped
  {
    var map1, unmap1 := OpMap(Key(1, 0), Copies(1, 0)), OpUnmap(Key(1, 0));
    var b, rest := FrontPart(f, 1, Key(1, 0), Copies(1, 0)), BackPart(f, 1);
    assert FindFree(s.r.free, 1) == Some(0);
    var s1 := Apply(s, map1);
    assert s1.r.free == [rest] && s1.r.mapped == [b] + s.r.mapped;
    LinearSplits(f.mtlbStart, f.stlbStart, 1);
    assert FindKey(s1.r.mapped, Key(1, 0), 0) == 0 && RemoveAt(s1.r.mapped, 0) == s.r.mapped;
    FreeMeetsItself(rest, b);
    assert Apply(s1, unmap1).r == Region([], s.r.mapped);
    assert [map1, unmap1][1..] == [unmap1] && [unmap1][1..] == [];
    assert RunOps(s1, [unmap1]) == Apply(s1, unmap1);
  }

  lemma FreeMeetsItself(rest: Node, b: Node)
    requires Meets(rest, b) && b.mtlbEnd == rest.mtlbStart && b.stlbEnd == rest.stlbStart
    ensures InsertFree([rest], b) == []
  {
    var joined := [JoinBack(rest, b)];
    assert FindTouching([rest], b, 0) == 0;
    assert [rest][0 := JoinBack(rest, b)] == joined;
    assert FindBehind(joined, joined[0], 0) == 0;
    assert RemoveAt(joined[0 := JoinFront(joined[0], joined[0])], 0) == [];
  }

  lemma OverclaimLosesPages(s: State, lo: nat, hi: nat, pages: nat)
    requires Claims(s, lo, hi, pages) && lo <= hi && hi + 1 < lo + pages
    ensures Sized(Filling(hi - lo)) && !Partitioned(RunOps(s, Filling(hi - lo)), lo, lo + pages)
  {
    var f, w, last := s.r.free[0], hi - lo, [OpMap(Key(1, 0), Copies(1, 0)), OpUnmap(Key(1, 0))];
    PastTheEnd(f, w);
    if w == 0 {
      assert Filling(w) == last;
      assert f == BackPart(f, 0);
      RestIsLost(s, f);
    } else {
      var op := OpMap(Key(0, 0), Copies(w, 0));
      var s1 := Apply(s, op);
      assert FindFree(s.r.free, w) == Some(0);
      assert s1.r.free == [BackPart(f, w)] && s1.r.mapped == [FrontPart(f, w, Key(0, 0), Copies(w, 0))];
      assert Filling(w)[1..] == last;
      RestIsLost(s1, BackPart(f, w));
      LinearSplits(f.mtlbStart, f.stlbStart, w);
    }
    var s' := RunOps(s, Filling(w));
    assert s'.r.free == [] && TrimAll(s'.r.free) == [];
    assert Hits(s'.r.mapped, hi) == 0;
  }

  /** The claimed pages stay partitioned in every run iff the region claims at most one page more than it
      has. From two more on it can lose pages: first the end a free node records is taken for the start
      of another, then the node is joined with itself and deleted. */
  lemma PartitionIsExact(s: State, lo: nat, hi: nat, pages: nat)
    requires Claims(s, lo, hi, pages) && lo <= hi
    ensures (forall ops :: Sized(ops) ==> Partitioned(RunOps(s, ops), lo, lo + pages)) <==> lo + pages <= hi + 1
  {
    if lo + pages <= hi + 1 {
      forall ops | Sized(ops)
        ensures Partitioned(RunOps(s, ops), lo, lo + pages)
      {
        EveryClaimIsPartitioned(s, lo, hi, pages, ops);
      }
    } else {
      OverclaimLosesPages(s, lo, hi, pages);
    }
  }

  // ---------------------------------------------------------------- the shipped regions

  /** The node CreateNode makes from a bus range and a page count. */
  function ShippedNode(start: nat, end: nat, pages: nat): Node {
    Node(start / 0x40_0000, start / 0x1000 % 1024, end / 0x40_0000, end / 0x1000 % 1024, pages, Key(0, 0), [])
  }

  datatype Shipped = IN | OUT | PRIVATE | PUB

  /** The free node CreateNode makes for each region. */
  function ShippedRegion(region: Shipped): Node {
    match region
    case IN => ShippedNode(0x1000, 0x4000_2000, (0x4000_0000 - 0 + 1) / 4096 - 1)
    case OUT => ShippedNode(0x4000_2000, 0x8000_1000, (0x8000_0000 - 0x4000_0000 + 1) / 4096)
    case PRIVATE => ShippedNode(0x8000_1000, 0xc000_0000, (0xc000_0000 - 0x8000_0000 + 1) / 4096)
    case PUB =>
      Node(768, 0, MMU_MTLB_ENTRY_NUM - 1, MMU_STLB_4K_ENTRY_NUM - 1,
           (1023 - 768) * MMU_STLB_4K_ENTRY_NUM + 1023 - 0 + 1, Key(0, 0), [])
  }

  /** A region in its initial state over a zeroed table. */
  function ShippedState(region: Shipped): State {
    State(Region([ShippedRegion(region)], []), seq(TABLE_ENTRIES, _ => 0))
  }

  /** IN claims two pages fewer than it is wide, OUT, PRIVATE and PUB each one more. */
  lemma ShippedCounts(region: Shipped)
    ensures var n := ShippedRegion(region);
            && Claims(ShippedState(region), Start(n), End(n), n.pages)
            && |ShippedState(region).table| == TABLE_ENTRIES
            && n.pages + (if region.IN? then 2 else -1) == End(n) - Start(n)
  {
  }

  /** So all four partition the pages they claim in every run, and translate every byte of every buffer. */
  lemma ShippedRegionsTranslate(region: Shipped, ops: seq<Op>, mtlb: seq<nat>, stlbPhysical: nat,
                                n: Node, k: nat, off: nat)
    requires Sized(ops) && MtlbFilled(mtlb, stlbPhysical) && Addressable(stlbPhysical)
    requires n in RunOps(ShippedState(region), ops).r.mapped && k < n.pages && off < 4096
    ensures var f, s' := ShippedRegion(region), RunOps(ShippedState(region), ops);
            && Partitioned(s', Start(f), Start(f) + f.pages)
            && k < |n.phys|
            && (Walk(mtlb, stlbPhysical, s'.table, BusAddress(n) + 4096 * k + off) == Some(n.phys[k])
                <==> n.phys[k] & 0xFFF == 0 && n.phys[k] >> 40 == 0)
  {
    var f := ShippedRegion(region);
    ShippedCounts(region);
    hide ShippedRegion, ShippedState;
    EveryClaimIsPartitioned(ShippedState(region), Start(f), End(f), f.pages, ops);
    EveryClaimTranslates(ShippedState(region), Start(f), End(f), f.pages, ops, mtlb, stlbPhysical, n, k, off);
  }

  /** Of the shipped regions only IN keeps to itself in every run. */
  lemma ShippedRegionsEscape(region: Shipped)
    ensures (exists ops :: Sized(ops) && Escapes(RunOps(ShippedState(region), ops), End(ShippedRegion(region))))
            <==> !region.IN?
  {
    var n := ShippedRegion(region);
    ShippedCounts(region);
    EscapesIffOverclaimed(ShippedState(region), Start(n), End(n), n.pages);
  }

  /** The page that OUT and PRIVATE hand out beyond their end is the first page of the next region. */
  lemma NextRegionIsHit()
    ensures var out, private', pub := ShippedRegion(OUT), ShippedRegion(PRIVATE), ShippedRegion(PUB);
            && Start(out) + out.pages == Start(private') + 1
            && Start(private') + private'.pages == Start(pub) + 1
            && Start(pub) + pub.pages == TABLE_ENTRIES
  {
  }
}
