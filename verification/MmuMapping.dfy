/** Mapping and unmapping: the allocator and the page table together translate every mapped buffer. */
module MmuMapping {
  import opened Wrappers
  import opened MmuSpec
  import opened MmuRegions

  /** One region and the shared second-level table. */
  datatype State = State(r: Region, table: seq<bv32>)

  /** The table after one entry has been written for each physical page. */
  function Written(table: seq<bv32>, start: nat, phys: seq<bv64>): (t: seq<bv32>)
    requires start + |phys| <= |table|
    ensures |t| == |table|
    ensures forall p :: 0 <= p < |table| ==>
              t[p] == if start <= p < start + |phys| then Entry(phys[p - start]) else table[p]
  {
    seq(|table|, p requires 0 <= p < |table| =>
      if start <= p < start + |phys| then Entry(phys[p - start]) else table[p])
  }

  function Cleared(table: seq<bv32>, start: nat, n: nat): (t: seq<bv32>)
    requires start + n <= |table|
    ensures |t| == |table|
    ensures forall p :: 0 <= p < |table| ==> t[p] == if start <= p < start + n then 0 else table[p]
  {
    seq(|table|, p requires 0 <= p < |table| => if start <= p < start + n then 0 else table[p])
  }

  /** MMUMemNodeMap for a buffer whose physical pages are phys. */
  function Map(s: State, key: Key, phys: seq<bv64>): Option<State>
  {
    match FindFree(s.r.free, |phys|)
    case None => None
    case Some(i) =>
      var start := Start(s.r.free[i]);
      if start + |phys| > |s.table| then None
      else Some(State(Split(s.r, i, |phys|, key, phys), Written(s.table, start, phys)))
  }

  /** MMUMemNodeUnmap of the first buffer mapped under key. */
  function Unmap(s: State, key: Key): Option<State> {
    var k := FindKey(s.r.mapped, key, 0);
    if k == |s.r.mapped| then None
    else
      var n := s.r.mapped[k];
      if Start(n) + n.pages > |s.table| then None
      else Some(State(Region(InsertFree(s.r.free, n), RemoveAt(s.r.mapped, k)), Cleared(s.table, Start(n), n.pages)))
  }

  /** The table says what the nodes say. */
  predicate Tabled(n: Node, table: seq<bv32>) {
    && |n.phys| == n.pages
    && Start(n) + n.pages <= |table|
    && forall k :: 0 <= k < n.pages ==> table[Start(n) + k] == Entry(n.phys[k])
  }

  ghost predicate StateInv(s: State, lo: nat, hi: nat) {
    && Inv(s.r, lo, hi) && hi <= |s.table|
    && (forall n :: n in s.r.mapped ==> Tabled(n, s.table))
    && (forall p :: lo <= p < hi && Hits(s.r.mapped, p) == 0 ==> s.table[p] == 0)
  }

  // ---------------------------------------------------------------- one page, one node

  lemma NodeInside(r: Region, lo: nat, hi: nat, n: Node)
    requires Inv(r, lo, hi) && (n in r.free || n in r.mapped)
    ensures lo <= Start(n) && End(n) <= hi
  {
    var s := if n in r.free then r.free else r.mapped;
    var i :| 0 <= i < |s| && s[i] == n;
    Member(s, i, Start(n));
    Member(s, i, End(n) - 1);
    assert Hits(r.free, Start(n)) + Hits(r.mapped, Start(n)) >= 1;
    assert Hits(r.free, End(n) - 1) + Hits(r.mapped, End(n) - 1) >= 1;
  }

  /** A free node and a mapped node share no page. */
  lemma FreeIsNotMapped(r: Region, lo: nat, hi: nat, i: nat, p: nat)
    requires Inv(r, lo, hi) && i < |r.free| && Holds(r.free[i], p)
    ensures Hits(r.mapped, p) == 0 && Hits(r.free, p) == 1
  {
    Member(r.free, i, p);
    assert Hits(r.free, p) + Hits(r.mapped, p) <= 1;
  }

  lemma MappedIsNotFree(r: Region, lo: nat, hi: nat, i: nat, p: nat)
    requires Inv(r, lo, hi) && i < |r.mapped| && Holds(r.mapped[i], p)
    ensures Hits(r.free, p) == 0 && Hits(r.mapped, p) == 1
  {
    Member(r.mapped, i, p);
    assert Hits(r.free, p) + Hits(r.mapped, p) <= 1;
  }

  /** An entry of the region is nonzero iff its page belongs to a mapped buffer. */
  lemma TableIsExact(s: State, lo: nat, hi: nat, p: nat)
    requires StateInv(s, lo, hi) && lo <= p < hi
    ensures s.table[p] != 0 <==> Hits(s.r.mapped, p) == 1
  {
    assert Hits(s.r.free, p) + Hits(s.r.mapped, p) == 1;
    if Hits(s.r.mapped, p) == 1 {
      var i := SomeHolder(s.r.mapped, p);
      var n := s.r.mapped[i];
      assert n in s.r.mapped && Tabled(n, s.table) && Normal(n);
      var k: nat := p - Start(n);
      assert k < n.pages && s.table[Start(n) + k] == Entry(n.phys[k]);
      EntryRoundTrip(n.phys[k]);
    }
  }

  // ---------------------------------------------------------------- mapping keeps the invariant

  lemma MapAt(s: State, lo: nat, hi: nat, key: Key, phys: seq<bv64>) returns (i: nat)
    requires StateInv(s, lo, hi) && phys != [] && FindFree(s.r.free, |phys|).Some?
    ensures FindFree(s.r.free, |phys|) == Some(i) && i < |s.r.free|
    ensures var f := s.r.free[i];
            && lo <= Start(f) && End(f) <= hi && Start(f) + |phys| <= End(f)
            && Map(s, key, phys) == Some(State(Split(s.r, i, |phys|, key, phys), Written(s.table, Start(f), phys)))
  {
    i := FindFree(s.r.free, |phys|).value;
    NodeInside(s.r, lo, hi, s.r.free[i]);
  }

  /** Mapping writes only pages that were free. */
  lemma MapKeepsOthers(s: State, lo: nat, hi: nat, key: Key, phys: seq<bv64>, n: Node)
    requires StateInv(s, lo, hi) && phys != [] && Map(s, key, phys).Some? && n in s.r.mapped
    ensures n in Map(s, key, phys).value.r.mapped && Tabled(n, Map(s, key, phys).value.table)
  {
    var i := MapAt(s, lo, hi, key, phys);
    var s' := Map(s, key, phys).value;
    var m :| 0 <= m < |s.r.mapped| && s.r.mapped[m] == n;
    assert s'.r.mapped[m + 1] == n && Tabled(n, s.table);
    NodeInside(s.r, lo, hi, n);
    FreeAndMappedApart(s.r, lo, hi, i, m);
    hide Inv, FrontPart, BackPart, Tabled;
    TabledElsewhere(n, s.table, Start(s.r.free[i]), phys);
  }

  lemma TabledElsewhere(n: Node, table: seq<bv32>, start: nat, phys: seq<bv64>)
    requires Tabled(n, table) && start + |phys| <= |table|
    requires Start(n) + n.pages <= start || start + |phys| <= Start(n)
    ensures Tabled(n, Written(table, start, phys))
  {
    hide Entry;
  }

  /** A mapped node and a free node lie apart. */
  lemma FreeAndMappedApart(r: Region, lo: nat, hi: nat, i: nat, m: nat)
    requires Inv(r, lo, hi) && i < |r.free| && m < |r.mapped|
    ensures End(r.mapped[m]) <= Start(r.free[i]) || End(r.free[i]) <= Start(r.mapped[m])
  {
    var a, b := r.free[i], r.mapped[m];
    assert Normal(a) && Normal(b);
    var p := if Start(a) < Start(b) then Start(b) else Start(a);
    if Holds(a, p) && Holds(b, p) {
      Member(r.free, i, p);
      MappedIsNotFree(r, lo, hi, m, p);
    }
  }

  lemma MapKeeps(s: State, lo: nat, hi: nat, key: Key, phys: seq<bv64>)
    requires StateInv(s, lo, hi) && phys != [] && Map(s, key, phys).Some?
    ensures StateInv(Map(s, key, phys).value, lo, hi)
  {
    var i := MapAt(s, lo, hi, key, phys);
    var s' := Map(s, key, phys).value;
    var f, a := s.r.free[i], s'.r.mapped[0];
    SplitKeeps(s.r, lo, hi, i, |phys|, key, phys);
    Parts(f, |phys|, key, phys);
    forall n | n in s'.r.mapped
      ensures Tabled(n, s'.table)
    {
      if n in s.r.mapped {
        MapKeepsOthers(s, lo, hi, key, phys, n);
      }
    }
    forall p | lo <= p < hi && Hits(s'.r.mapped, p) == 0
      ensures s'.table[p] == 0
    {
      assert s'.r.mapped[1..] == s.r.mapped;
      assert !Holds(a, p) && Hits(s.r.mapped, p) == 0;
    }
  }

  lemma UnmapKeeps(s: State, lo: nat, hi: nat, key: Key)
    requires StateInv(s, lo, hi) && FindKey(s.r.mapped, key, 0) < |s.r.mapped|
    ensures Unmap(s, key).Some? && StateInv(Unmap(s, key).value, lo, hi)
    ensures forall n :: n in Unmap(s, key).value.r.mapped ==> n in s.r.mapped
  {
    var k := FindKey(s.r.mapped, key, 0);
    var n := s.r.mapped[k];
    NodeInside(s.r, lo, hi, n);
    var s' := Unmap(s, key).value;
    InsertFreeAbsorbs(s.r.free, n);
    Remove(s.r.mapped, k);
    assert forall m :: m in s'.r.mapped ==> m in s.r.mapped;
    forall m | m in s'.r.mapped
      ensures Tabled(m, s'.table)
    {
      UnmapKeepsOthers(s, lo, hi, k, m);
    }
    forall p | lo <= p < hi && Hits(s'.r.mapped, p) == 0
      ensures s'.table[p] == 0
    {
      assert Hits(s'.r.mapped, p) + Hit(n, p) == Hits(s.r.mapped, p);
    }
  }

  /** Unmapping clears only the pages of the buffer it takes out. */
  lemma UnmapKeepsOthers(s: State, lo: nat, hi: nat, k: nat, m: Node)
    requires StateInv(s, lo, hi) && k < |s.r.mapped| && m in RemoveAt(s.r.mapped, k)
    ensures var n := s.r.mapped[k];
            Start(n) + n.pages <= |s.table| && Tabled(m, Cleared(s.table, Start(n), n.pages))
  {
    hide Entry, Apart;
    var n := s.r.mapped[k];
    NodeInside(s.r, lo, hi, n);
    var j :| 0 <= j < |s.r.mapped| - 1 && RemoveAt(s.r.mapped, k)[j] == m;
    var j' := if j < k then j else j + 1;
    assert s.r.mapped[j'] == m && m in s.r.mapped;
    var t := Cleared(s.table, Start(n), n.pages);
    forall p | Start(m) <= p < Start(m) + m.pages
      ensures t[p] == s.table[p]
    {
      assert Hits(s.r.free, p) + Hits(s.r.mapped, p) <= 1;
      if Holds(n, p) {
        TwoMembers(s.r.mapped, j', k, p);
      }
    }
  }

  // ---------------------------------------------------------------- translation

  /** The first-level table as MMUPageTableInit fills it: entry i points at the i-th second-level table. */
  predicate MtlbFilled(mtlb: seq<nat>, stlbPhysical: nat) {
    && |mtlb| == MMU_MTLB_ENTRY_NUM
    && forall i :: 0 <= i < |mtlb| ==> mtlb[i] == MtlbEntry(stlbPhysical + i * 4096)
  }

  /** A table area the hardware can address: page-aligned and below 2^32. */
  predicate Addressable(stlbPhysical: nat) {
    stlbPhysical % 4096 == 0 && stlbPhysical + TABLE_ENTRIES * 4 <= 0x1_0000_0000
  }

  /** A first-level entry is present, for pages of 4 KiB, and takes no exception. */
  lemma MtlbEntryPermits(address: nat)
    ensures MtlbEntry(address) % 32 == 1 && MtlbEntry(address) % 2 == 1
  {
    var q := address % 0x1_0000_0000 / 32;
    OneAbove(q);
    Odd(q * 16);
  }

  lemma OneAbove(q: nat)
    ensures (q * 32 + 1) % 32 == 1
  {
  }

  lemma Odd(h: nat)
    ensures (2 * h + 1) % 2 == 1
  {
  }

  lemma MtlbEntryReads(address: nat)
    requires address % 4096 == 0 && address < 0x1_0000_0000
    ensures StlbBase(MtlbEntry(address)) == address
  {
    var q := address / 4096;
    assert address == q * 4096;
    assert address % 0x1_0000_0000 == address;
    HintBits(q * 64);
  }

  lemma HintBits(x: nat)
    ensures x * 64 / 32 * 32 == x * 64 && (x * 64 + 1) / 64 == x
  {
  }

  /** The address of a byte of the bus page numbered p splits into the two table indices and the offset. */
  lemma SplitAddress(p: nat, off: nat)
    requires p < TABLE_ENTRIES && off < 4096
    ensures var va := p * 4096 + off;
            va / 0x40_0000 == p / 1024 && va / 0x1000 % 1024 == p % 1024
  {
    var va := p * 4096 + off;
    assert va / 4096 == p;
    var m, s := p / 1024, p % 1024;
    assert va == m * 0x40_0000 + (s * 4096 + off);
  }

  /** The two-level walk of a bus address ends at the table entry of its page. */
  lemma WalkFindsEntry(mtlb: seq<nat>, stlbPhysical: nat, stlb: seq<bv32>, p: nat, off: nat)
    requires MtlbFilled(mtlb, stlbPhysical) && Addressable(stlbPhysical)
    requires |stlb| == TABLE_ENTRIES && p < TABLE_ENTRIES && off < 4096
    ensures Walk(mtlb, stlbPhysical, stlb, p * 4096 + off) ==
              if stlb[p] & 1 == 0 then None else Some(PageOf(stlb[p]))
  {
    hide PageOf, MtlbEntry, StlbBase;
    SplitAddress(p, off);
    var m, s := p / 1024, p % 1024;
    var base := stlbPhysical + m * 4096;
    AddsAligned(stlbPhysical, m);
    MtlbEntryReads(base);
    MtlbEntryPermits(base);
    assert mtlb[m] == MtlbEntry(base);
    assert base + s * 4 - stlbPhysical == p * 4;
  }

  lemma AddsAligned(a: nat, m: nat)
    requires a % 4096 == 0
    ensures (a + m * 4096) % 4096 == 0
  {
  }

  lemma EntryIsPresent(address: bv64)
    ensures Entry(address) & 1 != 0
  {
  }

  lemma BusAddressIsLinear(n: Node)
    ensures BusAddress(n) == Start(n) * 4096
  {
  }

  lemma WalkHits(s: State, lo: nat, hi: nat, mtlb: seq<nat>, stlbPhysical: nat, n: Node, k: nat, off: nat)
    requires StateInv(s, lo, hi) && |s.table| == TABLE_ENTRIES
    requires MtlbFilled(mtlb, stlbPhysical) && Addressable(stlbPhysical)
    requires n in s.r.mapped && k < n.pages && off < 4096
    ensures k < |n.phys|
    ensures Walk(mtlb, stlbPhysical, s.table, BusAddress(n) + 4096 * k + off) == Some(PageOf(Entry(n.phys[k])))
  {
    assert Tabled(n, s.table);
    NodeInside(s.r, lo, hi, n);
    var p := Start(n) + k;
    assert s.table[p] == Entry(n.phys[k]);
    BusAddressIsLinear(n);
    assert BusAddress(n) + 4096 * k + off == p * 4096 + off;
    WalkFindsEntry(mtlb, stlbPhysical, s.table, p, off);
    EntryIsPresent(n.phys[k]);
  }

  /** Every byte of every mapped buffer translates to its own physical page, whatever was mapped and
      unmapped before and since: carries from the second-level index into the first included. The page
      address comes back unchanged iff it is page-aligned and below 2^40. */
  lemma TranslationIsCorrect(s: State, lo: nat, hi: nat, mtlb: seq<nat>, stlbPhysical: nat, n: Node, k: nat, off: nat)
    requires StateInv(s, lo, hi) && |s.table| == TABLE_ENTRIES
    requires MtlbFilled(mtlb, stlbPhysical) && Addressable(stlbPhysical)
    requires n in s.r.mapped && k < n.pages && off < 4096
    ensures k < |n.phys|
    ensures Walk(mtlb, stlbPhysical, s.table, BusAddress(n) + 4096 * k + off) == Some(n.phys[k])
            <==> n.phys[k] & 0xFFF == 0 && n.phys[k] >> 40 == 0
  {
    WalkHits(s, lo, hi, mtlb, stlbPhysical, n, k, off);
    EntryIsExact(n.phys[k]);
  }

  /** Every page of every mapped buffer is present and writable. */
  lemma MappedIsWritable(s: State, lo: nat, hi: nat, n: Node, k: nat)
    requires StateInv(s, lo, hi) && n in s.r.mapped && k < n.pages
    ensures Start(n) + k < |s.table| && s.table[Start(n) + k] & 0xF == 5
  {
    assert Tabled(n, s.table) && s.table[Start(n) + k] == Entry(n.phys[k]);
    EntryPermits(n.phys[k]);
  }

  /** A page of the region outside every mapped buffer does not translate at all. */
  lemma UnmappedDoesNotTranslate(s: State, lo: nat, hi: nat, mtlb: seq<nat>, stlbPhysical: nat, p: nat, off: nat)
    requires StateInv(s, lo, hi) && |s.table| == TABLE_ENTRIES
    requires MtlbFilled(mtlb, stlbPhysical) && Addressable(stlbPhysical)
    requires lo <= p < hi && off < 4096 && Hits(s.r.mapped, p) == 0
    ensures Walk(mtlb, stlbPhysical, s.table, p * 4096 + off) == None
  {
    WalkFindsEntry(mtlb, stlbPhysical, s.table, p, off);
  }

  // ---------------------------------------------------------------- unmap undoes map

  /** The free runs, as a set of start and end pages. */
  function Runs(free: seq<Node>): set<(nat, nat)> {
    set n | n in free :: (Start(n), End(n))
  }

  /** Unmapping the buffer just mapped gives back the same free runs, the same mapped buffers and the
      same table. */
  lemma UnmapUndoesMap(s: State, lo: nat, hi: nat, key: Key, phys: seq<bv64>)
    requires StateInv(s, lo, hi) && phys != [] && Map(s, key, phys).Some?
    ensures var s1 := Map(s, key, phys).value;
            && Unmap(s1, key).Some?
            && var s2 := Unmap(s1, key).value;
               s2.r.mapped == s.r.mapped && s2.table == s.table && Runs(s2.r.free) == Runs(s.r.free)
  {
    var i := MapAt(s, lo, hi, key, phys);
    var s1 := Map(s, key, phys).value;
    var f, a := s.r.free[i], s1.r.mapped[0];
    Parts(f, |phys|, key, phys);
    assert FindKey(s1.r.mapped, key, 0) == 0;
    assert RemoveAt(s1.r.mapped, 0) == s.r.mapped;
    TableReturns(s, lo, hi, i, phys);
    hide Entry, InsertFree, Tabled;
    if |phys| == f.pages {
      WholeRunReturns(s.r.free, i, a);
    } else {
      FrontReturns(s.r.free, i, |phys|, a);
    }
  }

  /** Writing into free pages and clearing them again restores the table. */
  lemma TableReturns(s: State, lo: nat, hi: nat, i: nat, phys: seq<bv64>)
    requires StateInv(s, lo, hi) && i < |s.r.free| && Start(s.r.free[i]) + |phys| <= End(s.r.free[i]) <= hi
    requires lo <= Start(s.r.free[i])
    ensures var start := Start(s.r.free[i]);
            Cleared(Written(s.table, start, phys), start, |phys|) == s.table
  {
    var start := Start(s.r.free[i]);
    var table' := Cleared(Written(s.table, start, phys), start, |phys|);
    forall p | 0 <= p < |s.table|
      ensures table'[p] == s.table[p]
    {
      if start <= p < start + |phys| {
        FreeIsNotMapped(s.r, lo, hi, i, p);
      }
    }
  }

  lemma WholeRunReturns(free: seq<Node>, i: nat, a: Node)
    requires AllNormal(free) && Apart(free) && i < |free| && Normal(a)
    requires Start(a) == Start(free[i]) && End(a) == End(free[i])
    ensures Runs(InsertFree(RemoveAt(free, i), a)) == Runs(free)
  {
    var rest := RemoveAt(free, i);
    forall x | x in rest
      ensures x in free && !Meets(x, a) && !Meets(a, x)
    {
      MeetsIsLinear(x, a);
      MeetsIsLinear(a, x);
      MeetsIsLinear(x, free[i]);
      MeetsIsLinear(free[i], x);
      assert x in free && free[i] in free;
    }
    assert InsertFree(rest, a) == [a] + rest;
    forall n | n in free
      ensures (Start(n), End(n)) in Runs([a] + rest)
    {
      var j :| 0 <= j < |free| && free[j] == n;
      if j == i {
        assert a in [a] + rest;
      } else {
        assert rest[if j < i then j else j - 1] == n;
        assert n in [a] + rest;
      }
    }
  }

  lemma FrontReturns(free: seq<Node>, i: nat, n: nat, a: Node)
    requires AllNormal(free) && Apart(free) && i < |free| && 0 < n < free[i].pages && Normal(a)
    requires Start(a) == Start(free[i]) && End(a) == Start(free[i]) + n
    requires forall p :: Hits(free, p) <= 1
    ensures Runs(InsertFree(free[i := BackPart(free[i], n)], a)) == Runs(free)
  {
    var f, b := free[i], BackPart(free[i], n);
    Parts(f, n, f.key, f.phys);
    var rest := free[i := b];
    MeetsIsLinear(a, b);
    forall j | 0 <= j < |free| && j != i
      ensures !Meets(rest[j], a) && !Meets(a, rest[j])
    {
      var x := free[j];
      MeetsIsLinear(x, a);
      MeetsIsLinear(a, x);
      MeetsIsLinear(x, f);
      assert x in free && f in free && !Meets(x, f);
      if Start(x) == End(a) {
        TwoMembers(free, i, j, End(a));
      }
    }
    assert rest[i] == b && Meets(a, rest[i]);
    var r := FindTouching(rest, a, 0);
    assert r == i;
    MeetsIsLinear(b, a);
    var c := JoinFront(a, b);
    var joined := rest[i := c];
    Joined(a, b);
    forall j | 0 <= j < |free|
      ensures !Meets(joined[j], c)
    {
      MeetsIsLinear(joined[j], c);
      if j != i {
        MeetsIsLinear(free[j], f);
        assert free[j] in free && f in free;
      }
    }
    assert InsertFree(rest, a) == joined;
    SameRuns(free, joined, i);
  }

  lemma SameRuns(free: seq<Node>, free': seq<Node>, i: nat)
    requires |free'| == |free| && i < |free|
    requires forall j :: 0 <= j < |free| ==> Start(free'[j]) == Start(free[j]) && End(free'[j]) == End(free[j])
    ensures Runs(free') == Runs(free)
  {
    forall n | n in free
      ensures (Start(n), End(n)) in Runs(free')
    {
      var j :| 0 <= j < |free| && free[j] == n;
      assert free'[j] in free';
    }
    forall n | n in free'
      ensures (Start(n), End(n)) in Runs(free)
    {
      var j :| 0 <= j < |free'| && free'[j] == n;
      assert free[j] in free;
    }
  }

  // ---------------------------------------------------------------- finding room

  /** All pages of the run are free. */
  predicate RunIsFree(r: Region, lo: nat, hi: nat, start: nat, n: nat) {
    lo <= start && start + n <= hi && forall p :: start <= p < start + n ==> Hits(r.mapped, p) == 0
  }

  /** Free nodes are maximal: the one that holds the first page of a free run holds all of it. */
  lemma MaximalRun(r: Region, lo: nat, hi: nat, start: nat, n: nat) returns (i: nat)
    requires Inv(r, lo, hi) && n > 0 && RunIsFree(r, lo, hi, start, n)
    ensures i < |r.free| && Holds(r.free[i], start) && start + n <= End(r.free[i])
  {
    assert Hits(r.free, start) + Hits(r.mapped, start) == 1;
    i := SomeHolder(r.free, start);
    var a := r.free[i];
    var e := End(a);
    if e < start + n {
      assert Hits(r.mapped, e) == 0 && Hits(r.free, e) + Hits(r.mapped, e) == 1;
      var j := SomeHolder(r.free, e);
      var b := r.free[j];
      assert a in r.free && b in r.free && !Meets(a, b);
      assert Hits(r.free, e - 1) + Hits(r.mapped, e - 1) <= 1;
      if Start(b) < e {
        TwoMembers(r.free, i, j, e - 1);
      }
      MeetsIsLinear(a, b);
    }
  }

  /** Mapping succeeds iff the region has a contiguous run of that many free pages: fragmentation of
      the free list never hides one. */
  lemma MapFindsRoom(s: State, lo: nat, hi: nat, key: Key, phys: seq<bv64>)
    requires StateInv(s, lo, hi) && phys != []
    ensures Map(s, key, phys).Some? <==> exists start: nat :: RunIsFree(s.r, lo, hi, start, |phys|)
  {
    if Map(s, key, phys).Some? {
      var i := MapAt(s, lo, hi, key, phys);
      var start := Start(s.r.free[i]);
      forall p | start <= p < start + |phys|
        ensures Hits(s.r.mapped, p) == 0
      {
        FreeIsNotMapped(s.r, lo, hi, i, p);
      }
      assert RunIsFree(s.r, lo, hi, start, |phys|);
    }
    if start: nat :| RunIsFree(s.r, lo, hi, start, |phys|) {
      var i := MaximalRun(s.r, lo, hi, start, |phys|);
      assert s.r.free[i] in s.r.free && s.r.free[i].pages >= |phys|;
      var j := MapAt(s, lo, hi, key, phys);
    }
  }

  /** With nothing mapped, one free node spans the region. */
  lemma AllFreeIsOneNode(r: Region, lo: nat, hi: nat)
    requires Inv(r, lo, hi) && lo < hi && r.mapped == []
    ensures |r.free| == 1 && Start(r.free[0]) == lo && End(r.free[0]) == hi
  {
    assert RunIsFree(r, lo, hi, lo, hi - lo);
    var i := MaximalRun(r, lo, hi, lo, hi - lo);
    NodeInside(r, lo, hi, r.free[i]);
    if |r.free| > 1 {
      var j := if i == 0 then 1 else 0;
      NodeInside(r, lo, hi, r.free[j]);
      var p := Start(r.free[j]);
      assert Hits(r.free, p) + Hits(r.mapped, p) <= 1;
      TwoMembers(r.free, i, j, p);
    }
  }
}
