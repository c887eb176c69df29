/** Several regions over one page table: what happens in one leaves the others alone. */
module MmuSpace {
  import opened Wrappers
  import opened MmuSpec
  import opened MmuRegions
  import opened MmuMapping
  import opened MmuRuns
  import opened MmuWidths

  /** The regions of the driver and the second-level table they share. */
  datatype Space = Space(regions: seq<Region>, table: seq<bv32>)

  /** The pages [lo, top) a region claims, and the end its nodes may record. */
  datatype Bounds = Bounds(lo: nat, top: nat, hi: nat)

  function StateOf(sp: Space, r: nat): State
    requires r < |sp.regions|
  {
    State(sp.regions[r], sp.table)
  }

  predicate Separate(a: Bounds, b: Bounds) {
    a.top <= b.lo || b.top <= a.lo
  }

  ghost predicate SpaceInv(sp: Space, bs: seq<Bounds>) {
    && |bs| == |sp.regions|
    && (forall r :: 0 <= r < |bs| ==> WidthInv(StateOf(sp, r), bs[r].lo, bs[r].top, bs[r].hi))
    && forall q, r :: 0 <= q < r < |bs| ==> Separate(bs[q], bs[r])
  }

  datatype SpaceOp = On(region: nat, op: Op)

  function ApplyOn(sp: Space, o: SpaceOp): Space {
    if o.region < |sp.regions| then
      var s := Apply(StateOf(sp, o.region), o.op);
      Space(sp.regions[o.region := s.r], s.table)
    else sp
  }

  predicate AllSized(ops: seq<SpaceOp>) {
    forall o :: o in ops && o.op.OpMap? ==> o.op.phys != []
  }

  function RunOn(sp: Space, ops: seq<SpaceOp>): Space
    decreases |ops|
  {
    if ops == [] then sp else RunOn(ApplyOn(sp, ops[0]), ops[1..])
  }

  // ---------------------------------------------------------------- what one operation touches

  predicate SameOutside(t: seq<bv32>, t': seq<bv32>, lo: nat, top: nat) {
    |t'| == |t| && forall p :: 0 <= p < |t| && !(lo <= p < top) ==> t'[p] == t[p]
  }

  predicate SameInside(t: seq<bv32>, t': seq<bv32>, lo: nat, top: nat) {
    |t'| == |t| && forall p :: 0 <= p < |t| && lo <= p < top ==> t'[p] == t[p]
  }

  /** An operation on a region writes only entries of the pages the region claims. */
  lemma ApplyStaysInside(s: State, lo: nat, top: nat, hi: nat, op: Op)
    requires WidthInv(s, lo, top, hi) && (op.OpMap? ==> op.phys != [])
    ensures SameOutside(s.table, Apply(s, op).table, lo, top)
  {
    ApplyTrim(s, lo, top, hi, op);
    var t := TrimState(s);
    match op
    case OpMap(key, phys) =>
      if FindFree(t.r.free, |phys|).Some? {
        var i := MapAt(t, lo, top, key, phys);
      }
    case OpUnmap(key) =>
      var k := FindKey(t.r.mapped, key, 0);
      if k < |t.r.mapped| {
        NodeInside(t.r, lo, top, t.r.mapped[k]);
      }
  }

  /** A region depends only on the entries of its own pages. */
  lemma OthersDoNotMatter(r: Region, t: seq<bv32>, t': seq<bv32>, lo: nat, top: nat, hi: nat)
    requires WidthInv(State(r, t), lo, top, hi) && SameInside(t, t', lo, top)
    ensures WidthInv(State(r, t'), lo, top, hi)
  {
    var s, s' := TrimState(State(r, t)), TrimState(State(r, t'));
    forall n | n in s'.r.mapped
      ensures Tabled(n, t')
    {
      NodeInside(s.r, lo, top, n);
      assert Tabled(n, t);
    }
  }

  lemma ApplyOnKeeps(sp: Space, bs: seq<Bounds>, o: SpaceOp)
    requires SpaceInv(sp, bs) && (o.op.OpMap? ==> o.op.phys != [])
    ensures SpaceInv(ApplyOn(sp, o), bs)
  {
    if o.region < |bs| {
      var r, sp' := o.region, ApplyOn(sp, o);
      var b := bs[r];
      ApplyTrim(StateOf(sp, r), b.lo, b.top, b.hi, o.op);
      ApplyStaysInside(StateOf(sp, r), b.lo, b.top, b.hi, o.op);
      hide WidthInv, Apply;
      forall q | 0 <= q < |bs| && q != r
        ensures WidthInv(StateOf(sp', q), bs[q].lo, bs[q].top, bs[q].hi)
      {
        assert if q < r then Separate(bs[q], bs[r]) else Separate(bs[r], bs[q]);
        OthersDoNotMatter(sp.regions[q], sp.table, sp'.table, bs[q].lo, bs[q].top, bs[q].hi);
      }
    }
  }

  lemma {:induction false} RunOnKeeps(sp: Space, bs: seq<Bounds>, ops: seq<SpaceOp>)
    requires SpaceInv(sp, bs) && AllSized(ops)
    ensures SpaceInv(RunOn(sp, ops), bs)
    decreases |ops|
  {
    if ops != [] {
      ApplyOnKeeps(sp, bs, ops[0]);
      RunOnKeeps(ApplyOn(sp, ops[0]), bs, ops[1..]);
    }
  }

  // ---------------------------------------------------------------- isolation

  lemma ApplyOnKeepsBuffer(sp: Space, bs: seq<Bounds>, o: SpaceOp, r: nat, n: Node)
    requires SpaceInv(sp, bs) && (o.op.OpMap? ==> o.op.phys != [])
    requires r < |bs| && n in sp.regions[r].mapped && o != On(r, OpUnmap(n.key))
    ensures r < |ApplyOn(sp, o).regions| && n in ApplyOn(sp, o).regions[r].mapped
    ensures |ApplyOn(sp, o).table| == |sp.table|
  {
    if o.region < |bs| {
      var q := o.region;
      ApplyTrim(StateOf(sp, q), bs[q].lo, bs[q].top, bs[q].hi, o.op);
      ApplyStaysInside(StateOf(sp, q), bs[q].lo, bs[q].top, bs[q].hi, o.op);
      if q == r {
        ApplyKeepsBuffer(TrimState(StateOf(sp, q)), bs[q].lo, bs[q].top, o.op, n);
      }
    }
  }

  lemma {:induction false} RunOnKeepsBuffer(sp: Space, bs: seq<Bounds>, ops: seq<SpaceOp>, r: nat, n: Node)
    requires SpaceInv(sp, bs) && AllSized(ops)
    requires r < |bs| && n in sp.regions[r].mapped && On(r, OpUnmap(n.key)) !in ops
    ensures r < |RunOn(sp, ops).regions| && n in RunOn(sp, ops).regions[r].mapped
    ensures |RunOn(sp, ops).table| == |sp.table|
    decreases |ops|
  {
    if ops != [] {
      ApplyOnKeepsBuffer(sp, bs, ops[0], r, n);
      ApplyOnKeeps(sp, bs, ops[0]);
      RunOnKeepsBuffer(ApplyOn(sp, ops[0]), bs, ops[1..], r, n);
    }
  }

  lemma WalkIsIsolated(sp: Space, bs: seq<Bounds>, ops: seq<SpaceOp>, mtlb: seq<nat>, stlbPhysical: nat,
                       r: nat, n: Node, k: nat, off: nat)
    requires SpaceInv(sp, bs) && AllSized(ops) && |sp.table| == TABLE_ENTRIES
    requires MtlbFilled(mtlb, stlbPhysical) && Addressable(stlbPhysical)
    requires r < |bs| && n in sp.regions[r].mapped && On(r, OpUnmap(n.key)) !in ops && k < n.pages && off < 4096
    ensures k < |n.phys|
    ensures var va := BusAddress(n) + 4096 * k + off;
            Walk(mtlb, stlbPhysical, RunOn(sp, ops).table, va) == Walk(mtlb, stlbPhysical, sp.table, va)
            == Some(PageOf(Entry(n.phys[k])))
  {
    RunOnKeeps(sp, bs, ops);
    RunOnKeepsBuffer(sp, bs, ops, r, n);
    var sp' := RunOn(sp, ops);
    var s, s' := TrimState(StateOf(sp, r)), TrimState(StateOf(sp', r));
    assert StateInv(s, bs[r].lo, bs[r].top) && StateInv(s', bs[r].lo, bs[r].top);
    hide StateInv, Walk, Entry, PageOf, WidthInv, BusAddress;
    WalkHits(s, bs[r].lo, bs[r].top, mtlb, stlbPhysical, n, k, off);
    WalkHits(s', bs[r].lo, bs[r].top, mtlb, stlbPhysical, n, k, off);
  }

  /** Isolation across regions: after any maps and unmaps in any region, other than unmapping this buffer
      where it is mapped, each of its bytes translates as before, to the page it was mapped to iff that
      page is aligned and below 2^40. */
  lemma BuffersAreIsolated(sp: Space, bs: seq<Bounds>, ops: seq<SpaceOp>, mtlb: seq<nat>, stlbPhysical: nat,
                           r: nat, n: Node, k: nat, off: nat)
    requires SpaceInv(sp, bs) && AllSized(ops) && |sp.table| == TABLE_ENTRIES
    requires MtlbFilled(mtlb, stlbPhysical) && Addressable(stlbPhysical)
    requires r < |bs| && n in sp.regions[r].mapped && On(r, OpUnmap(n.key)) !in ops && k < n.pages && off < 4096
    ensures k < |n.phys|
    ensures var va := BusAddress(n) + 4096 * k + off;
            && Walk(mtlb, stlbPhysical, RunOn(sp, ops).table, va) == Walk(mtlb, stlbPhysical, sp.table, va) != None
            && (Walk(mtlb, stlbPhysical, sp.table, va) == Some(n.phys[k]) <==> PageFits(n.phys[k]))
  {
    hide Walk, Entry, PageOf, SpaceInv, RunOn, BusAddress, MtlbFilled, Addressable, AllSized, PageFits;
    WalkIsIsolated(sp, bs, ops, mtlb, stlbPhysical, r, n, k, off);
    GivesBack(Walk(mtlb, stlbPhysical, sp.table, BusAddress(n) + 4096 * k + off), n.phys[k]);
  }

  lemma GivesBack(page: Option<bv64>, address: bv64)
    requires page == Some(PageOf(Entry(address)))
    ensures page == Some(address) <==> PageFits(address)
  {
    EntryIsExact(address);
    hide Entry, PageOf;
  }

  /** Aligned to 4 KiB and below 2^40. */
  predicate PageFits(address: bv64) {
    address & 0xFFF == 0 && address >> 40 == 0
  }

  // ---------------------------------------------------------------- claims that overlap

  /** One more operation, in a region other than r, changes what byte 0 of page k of a buffer mapped in r
      translates to. */
  ghost predicate Disturbs(sp: Space, mtlb: seq<nat>, stlbPhysical: nat, o: SpaceOp, r: nat, n: Node, k: nat) {
    && (o.op.OpMap? ==> o.op.phys != [])
    && r < |sp.regions| && o.region != r && n in sp.regions[r].mapped && k < n.pages
    && Walk(mtlb, stlbPhysical, ApplyOn(sp, o).table, BusAddress(n) + 4096 * k)
       != Walk(mtlb, stlbPhysical, sp.table, BusAddress(n) + 4096 * k)
  }

  /** Some run leads to such an operation. */
  ghost predicate CanDisturb(sp: Space, mtlb: seq<nat>, stlbPhysical: nat) {
    exists ops, o, r: nat, n, k: nat :: AllSized(ops) && Disturbs(RunOn(sp, ops), mtlb, stlbPhysical, o, r, n, k)
  }

  /** Two regions in their initial states over one table, each claiming at most one page more than it has. */
  ghost predicate TwoClaims(sp: Space, bs: seq<Bounds>) {
    && |sp.regions| == |bs| == 2 && |sp.table| == TABLE_ENTRIES
    && forall r :: 0 <= r < 2 ==> ClaimAt(sp, bs, r)
  }

  predicate ClaimAt(sp: Space, bs: seq<Bounds>, r: nat)
    requires r < |sp.regions| == |bs|
  {
    && bs[r].lo < bs[r].top <= bs[r].hi + 1
    && Claims(StateOf(sp, r), bs[r].lo, bs[r].hi, bs[r].top - bs[r].lo)
  }

  lemma SeparateNeverDisturbs(sp: Space, bs: seq<Bounds>, mtlb: seq<nat>, stlbPhysical: nat,
                              ops: seq<SpaceOp>, o: SpaceOp, r: nat, n: Node, k: nat)
    requires SpaceInv(sp, bs) && AllSized(ops) && |sp.table| == TABLE_ENTRIES
    requires MtlbFilled(mtlb, stlbPhysical) && Addressable(stlbPhysical)
    ensures !Disturbs(RunOn(sp, ops), mtlb, stlbPhysical, o, r, n, k)
  {
    RunOnKeeps(sp, bs, ops);
    RunOnLength(sp, ops);
    assert |bs| == |RunOn(sp, ops).regions|;
    hide SpaceInv, Disturbs, RunOn;
    OtherRegionKeeps(RunOn(sp, ops), bs, mtlb, stlbPhysical, o, r, n, k);
  }

  lemma OtherRegionKeeps(sp: Space, bs: seq<Bounds>, mtlb: seq<nat>, stlbPhysical: nat,
                         o: SpaceOp, r: nat, n: Node, k: nat)
    requires SpaceInv(sp, bs) && |bs| == |sp.regions| && |sp.table| == TABLE_ENTRIES
    requires MtlbFilled(mtlb, stlbPhysical) && Addressable(stlbPhysical)
    ensures !Disturbs(sp, mtlb, stlbPhysical, o, r, n, k)
  {
    hide SpaceInv, Walk, RunOn, BusAddress, MtlbFilled, Addressable, ApplyOn;
    if Disturbs(sp, mtlb, stlbPhysical, o, r, n, k) {
      OneWalkStays(sp, bs, mtlb, stlbPhysical, o, r, n, k);
    }
  }

  lemma OneWalkStays(sp: Space, bs: seq<Bounds>, mtlb: seq<nat>, stlbPhysical: nat, o: SpaceOp, r: nat, n: Node, k: nat)
    requires SpaceInv(sp, bs) && |sp.table| == TABLE_ENTRIES
    requires MtlbFilled(mtlb, stlbPhysical) && Addressable(stlbPhysical)
    requires (o.op.OpMap? ==> o.op.phys != []) && r < |bs| && o.region != r && n in sp.regions[r].mapped && k < n.pages
    ensures Walk(mtlb, stlbPhysical, ApplyOn(sp, o).table, BusAddress(n) + 4096 * k)
            == Walk(mtlb, stlbPhysical, sp.table, BusAddress(n) + 4096 * k)
  {
    RunOne(sp, o);
    hide SpaceInv, Walk, RunOn, BusAddress, MtlbFilled, Addressable, ApplyOn, Entry, PageOf;
    WalkIsIsolated(sp, bs, [o], mtlb, stlbPhysical, r, n, k, 0);
  }

  lemma RunOne(sp: Space, o: SpaceOp)
    ensures RunOn(sp, [o]) == ApplyOn(sp, o)
  {
    assert [o][1..] == [];
  }

  lemma {:induction false} RunOnLength(sp: Space, ops: seq<SpaceOp>)
    ensures |RunOn(sp, ops).table| == |sp.table|
    decreases |ops|
  {
    if ops != [] {
      RunOnLength(ApplyOn(sp, ops[0]), ops[1..]);
    }
  }

  /** A region of which nothing is mapped yet is mapped whole: every claimed page gets the given entry. */
  lemma MappedWhole(s: State, lo: nat, hi: nat, pages: nat, key: Key, page: bv64)
    requires Claims(s, lo, hi, pages)
    ensures var phys := Copies(pages, page);
            var s' := Apply(s, OpMap(key, phys));
            && phys != [] && |s'.r.mapped| == 1 && |s'.table| == |s.table|
            && Start(s'.r.mapped[0]) == lo && s'.r.mapped[0].pages == pages
            && (forall p :: 0 <= p < |s.table| ==>
                  s'.table[p] == if lo <= p < lo + pages then Entry(page) else s.table[p])
  {
    var phys := Copies(pages, page);
    hide Entry;
    MapsEverything(s, lo, hi, pages, key, phys);
    assert FindFree(s.r.free, pages) == Some(0);
  }

  lemma EntriesDiffer()
    ensures PageOf(Entry(0)) == 0 && PageOf(Entry(0x1000)) == 0x1000
    ensures Entry(0) & 1 != 0 && Entry(0x1000) & 1 != 0
  {
  }

  /** Both regions are mapped whole, the second to other pages: a page they both claim changes. */
  lemma OverlapDisturbs(sp: Space, bs: seq<Bounds>, mtlb: seq<nat>, stlbPhysical: nat)
    requires TwoClaims(sp, bs) && !Separate(bs[0], bs[1])
    requires MtlbFilled(mtlb, stlbPhysical) && Addressable(stlbPhysical)
    ensures CanDisturb(sp, mtlb, stlbPhysical)
  {
    var a, b := bs[0], bs[1];
    assert ClaimAt(sp, bs, 0) && ClaimAt(sp, bs, 1);
    var first := On(0, OpMap(Key(0, 0), Copies(a.top - a.lo, 0)));
    var second := On(1, OpMap(Key(0, 0), Copies(b.top - b.lo, 0x1000)));
    FirstMapping(sp, a, first);
    RunOne(sp, first);
    hide ApplyOn, Claims, Walk, MtlbFilled, RunOn, Entry;
    SharedPageDisturbs(ApplyOn(sp, first), a, b, second, mtlb, stlbPhysical, if a.lo < b.lo then b.lo else a.lo);
    assert AllSized([first]);
  }

  /** One region is mapped whole; mapping the other whole changes the first page they share. */
  lemma SharedPageDisturbs(sp: Space, a: Bounds, b: Bounds, o: SpaceOp, mtlb: seq<nat>, stlbPhysical: nat,
                           p: nat)
    requires |sp.regions| == 2 && |sp.table| == TABLE_ENTRIES
    requires a.lo <= p < a.top <= TABLE_ENTRIES && b.lo <= p < b.top <= TABLE_ENTRIES
    requires |sp.regions[0].mapped| == 1
    requires Start(sp.regions[0].mapped[0]) == a.lo && sp.regions[0].mapped[0].pages == a.top - a.lo
    requires sp.table[p] == Entry(0)
    requires |sp.regions[1].free| == 1 && sp.regions[1].mapped == []
    requires Start(sp.regions[1].free[0]) == b.lo && sp.regions[1].free[0].pages == b.top - b.lo
    requires o == On(1, OpMap(Key(0, 0), Copies(b.top - b.lo, 0x1000)))
    requires MtlbFilled(mtlb, stlbPhysical) && Addressable(stlbPhysical)
    ensures Disturbs(sp, mtlb, stlbPhysical, o, 0, sp.regions[0].mapped[0], p - a.lo)
  {
    var f, n := sp.regions[1].free[0], sp.regions[0].mapped[0];
    assert sp.regions[1] == Region([f], []);
    hide Entry, ApplyOn, Walk, MtlbFilled, Addressable, Start, Copies, BusAddress;
    SecondMapping(sp, f, b, o, p);
    PageChanges(sp.table, ApplyOn(sp, o).table, mtlb, stlbPhysical, n, p - a.lo);
  }

  lemma FirstMapping(sp: Space, a: Bounds, o: SpaceOp)
    requires |sp.regions| == 2 && a.lo < a.top && Claims(StateOf(sp, 0), a.lo, a.hi, a.top - a.lo)
    requires o == On(0, OpMap(Key(0, 0), Copies(a.top - a.lo, 0)))
    ensures var sp' := ApplyOn(sp, o);
            && |sp'.regions| == 2 && sp'.regions[1] == sp.regions[1] && |sp'.table| == |sp.table|
            && |sp'.regions[0].mapped| == 1
            && Start(sp'.regions[0].mapped[0]) == a.lo && sp'.regions[0].mapped[0].pages == a.top - a.lo
            && forall p :: a.lo <= p < a.top ==> sp'.table[p] == Entry(0)
  {
    hide Entry;
    MappedWhole(StateOf(sp, 0), a.lo, a.hi, a.top - a.lo, Key(0, 0), 0);
  }

  lemma PageChanges(t: seq<bv32>, t': seq<bv32>, mtlb: seq<nat>, stlbPhysical: nat, n: Node, k: nat)
    requires |t| == |t'| == TABLE_ENTRIES && Start(n) + k < TABLE_ENTRIES
    requires t[Start(n) + k] == Entry(0) && t'[Start(n) + k] == Entry(0x1000)
    requires MtlbFilled(mtlb, stlbPhysical) && Addressable(stlbPhysical)
    ensures Walk(mtlb, stlbPhysical, t', BusAddress(n) + 4096 * k)
            != Walk(mtlb, stlbPhysical, t, BusAddress(n) + 4096 * k)
  {
    EntriesDiffer();
    hide Entry, PageOf, Walk, MtlbFilled;
    BusAddressIsLinear(n);
    var p := Start(n) + k;
    assert BusAddress(n) + 4096 * k == p * 4096 + 0;
    WalkFindsEntry(mtlb, stlbPhysical, t, p, 0);
    WalkFindsEntry(mtlb, stlbPhysical, t', p, 0);
  }

  /** The second region's free node does not know that entries of its pages have been written. */
  lemma SecondMapping(sp: Space, f: Node, b: Bounds, o: SpaceOp, p: nat)
    requires |sp.regions| == 2 && sp.regions[1] == Region([f], []) && b.lo < b.top <= |sp.table|
    requires Start(f) == b.lo && f.pages == b.top - b.lo && b.lo <= p < b.top
    requires o == On(1, OpMap(Key(0, 0), Copies(b.top - b.lo, 0x1000)))
    ensures var t := ApplyOn(sp, o).table;
            |t| == |sp.table| && t[p] == Entry(0x1000)
  {
    hide Entry;
    assert FindFree([f], b.top - b.lo) == Some(0);
  }

  lemma TwoClaimsKeep(sp: Space, bs: seq<Bounds>)
    requires TwoClaims(sp, bs) && Separate(bs[0], bs[1])
    ensures SpaceInv(sp, bs)
  {
    hide WidthInv, Claims;
    forall r | 0 <= r < 2
      ensures WidthInv(StateOf(sp, r), bs[r].lo, bs[r].top, bs[r].hi)
    {
      assert ClaimAt(sp, bs, r);
      ClaimsKeeps(StateOf(sp, r), bs[r].lo, bs[r].hi, bs[r].top - bs[r].lo);
    }
  }

  /** Some run of maps and unmaps in one of two regions changes what a buffer of the other translates to iff
      the pages they claim overlap. */
  lemma DisturbanceIsExact(sp: Space, bs: seq<Bounds>, mtlb: seq<nat>, stlbPhysical: nat)
    requires TwoClaims(sp, bs) && MtlbFilled(mtlb, stlbPhysical) && Addressable(stlbPhysical)
    ensures CanDisturb(sp, mtlb, stlbPhysical) <==> !Separate(bs[0], bs[1])
  {
    hide SpaceInv, ClaimAt, Disturbs, MtlbFilled;
    if Separate(bs[0], bs[1]) {
      TwoClaimsKeep(sp, bs);
      forall ops, o, r: nat, n, k: nat | AllSized(ops)
        ensures !Disturbs(RunOn(sp, ops), mtlb, stlbPhysical, o, r, n, k)
      {
        SeparateNeverDisturbs(sp, bs, mtlb, stlbPhysical, ops, o, r, n, k);
      }
    } else {
      OverlapDisturbs(sp, bs, mtlb, stlbPhysical);
    }
  }

  /** Two shipped regions in their initial states over a zeroed table. */
  function ShippedPair(a: Shipped, b: Shipped): Space {
    Space([ShippedState(a).r, ShippedState(b).r], ShippedState(a).table)
  }

  /** The shipped regions that get into each other's way are exactly OUT with PRIVATE and PRIVATE with PUB. */
  lemma ShippedRegionsDisturb(a: Shipped, b: Shipped, mtlb: seq<nat>, stlbPhysical: nat)
    requires a != b && MtlbFilled(mtlb, stlbPhysical) && Addressable(stlbPhysical)
    ensures CanDisturb(ShippedPair(a, b), mtlb, stlbPhysical) <==> a != IN && b != IN && (a == PRIVATE || b == PRIVATE)
  {
    var m, n := ShippedRegion(a), ShippedRegion(b);
    var bs := [Bounds(Start(m), Start(m) + m.pages, End(m)), Bounds(Start(n), Start(n) + n.pages, End(n))];
    var sp := ShippedPair(a, b);
    ShippedCounts(a);
    ShippedCounts(b);
    assert StateOf(sp, 0) == ShippedState(a) && StateOf(sp, 1) == ShippedState(b);
    assert TwoClaims(sp, bs) by {
      hide ShippedState, ShippedRegion;
      assert ClaimAt(sp, bs, 0) && ClaimAt(sp, bs, 1);
    }
    hide ShippedState, MtlbFilled;
    DisturbanceIsExact(sp, bs, mtlb, stlbPhysical);
    NextRegionIsHit();
  }
}
