/** Values of the MMU driver: address-space nodes in (mtlb, stlb) page numbers, and page-table words. */
module MmuSpec {
  import opened Wrappers

  const MMU_STLB_4K_ENTRY_NUM: nat := 1024
  const MMU_MTLB_ENTRY_NUM: nat := 1024
  const TABLE_ENTRIES: nat := 1048576

  /** Who mapped a buffer: its virtual address and its process. */
  datatype Key = Key(va: nat, pid: nat)

  /** A run of pages; the end is the page after the last one. phys lists the physical pages behind a
      mapped run. */
  datatype Node = Node(
    mtlbStart: nat, stlbStart: nat, mtlbEnd: nat, stlbEnd: nat, pages: nat, key: Key, phys: seq<bv64>)

  function Linear(mtlb: nat, stlb: nat): nat {
    mtlb * MMU_STLB_4K_ENTRY_NUM + stlb
  }

  function Start(n: Node): nat {
    Linear(n.mtlbStart, n.stlbStart)
  }

  function End(n: Node): nat {
    Linear(n.mtlbEnd, n.stlbEnd)
  }

  predicate Holds(n: Node, p: nat) {
    Start(n) <= p < End(n)
  }

  /** The free list and the map list, in list order. */
  datatype Region = Region(free: seq<Node>, mapped: seq<Node>)

  // ---------------------------------------------------------------- list operations

  /** FindFreeNode: first fit. */
  function FindFree(free: seq<Node>, n: nat): (r: Option<nat>)
    ensures r.Some? ==> r.value < |free| && free[r.value].pages >= n
    ensures r.None? ==> forall i :: 0 <= i < |free| ==> free[i].pages < n
    ensures r.Some? ==> forall i :: 0 <= i < r.value ==> free[i].pages < n
  {
    if free == [] then None
    else if free[0].pages >= n then Some(0)
    else match FindFree(free[1..], n)
      case None => None
      case Some(r) => Some(r + 1)
  }

  /** The mapped node SplitFreeNode cuts off the front of a free one. */
  function FrontPart(f: Node, n: nat, key: Key, phys: seq<bv64>): Node {
    f.(mtlbEnd := (n + f.stlbStart) / MMU_STLB_4K_ENTRY_NUM + f.mtlbStart,
       stlbEnd := (n + f.stlbStart) % MMU_STLB_4K_ENTRY_NUM,
       pages := n, key := key, phys := phys)
  }

  /** What is left of the free node. */
  function BackPart(f: Node, n: nat): Node
    requires n <= f.pages
  {
    var p := FrontPart(f, n, f.key, f.phys);
    f.(pages := f.pages - n, mtlbStart := p.mtlbEnd, stlbStart := p.stlbEnd)
  }

  function RemoveAt(s: seq<Node>, i: nat): seq<Node>
    requires i < |s|
  {
    s[..i] + s[i + 1..]
  }

  /** SplitFreeNode of the free node at i. */
  function Split(r: Region, i: nat, n: nat, key: Key, phys: seq<bv64>): Region
    requires i < |r.free| && n <= r.free[i].pages
  {
    var f := r.free[i];
    Region(if f.pages == n then RemoveAt(r.free, i) else r.free[i := BackPart(f, n)],
           [FrontPart(f, n, key, phys)] + r.mapped)
  }

  /** a ends where b starts, compared field by field. */
  predicate Meets(a: Node, b: Node) {
    a.mtlbEnd == b.mtlbStart && a.stlbEnd == b.stlbStart
  }

  /** a followed by b, kept in a's place. */
  function JoinBack(a: Node, b: Node): Node {
    a.(mtlbEnd := b.mtlbEnd, stlbEnd := b.stlbEnd, pages := a.pages + b.pages)
  }

  /** a followed by b, kept in b's place. */
  function JoinFront(a: Node, b: Node): Node {
    b.(mtlbStart := a.mtlbStart, stlbStart := a.stlbStart, pages := b.pages + a.pages)
  }

  /** The first free node that touches p on either side. */
  function FindTouching(free: seq<Node>, p: Node, k: nat): (r: nat)
    requires k <= |free|
    ensures k <= r <= |free|
    ensures r < |free| ==> Meets(free[r], p) || Meets(p, free[r])
    ensures forall i :: k <= i < r ==> !Meets(free[i], p) && !Meets(p, free[i])
    decreases |free| - k
  {
    if k < |free| && !Meets(free[k], p) && !Meets(p, free[k]) then FindTouching(free, p, k + 1) else k
  }

  /** The first free node that starts where p ends. */
  function FindBehind(free: seq<Node>, p: Node, k: nat): (r: nat)
    requires k <= |free|
    ensures k <= r <= |free|
    ensures r < |free| ==> Meets(p, free[r])
    ensures forall i :: k <= i < r ==> !Meets(p, free[i])
    decreases |free| - k
  {
    if k < |free| && !Meets(p, free[k]) then FindBehind(free, p, k + 1) else k
  }

  /** The first free node that ends where p starts. */
  function FindInFront(free: seq<Node>, p: Node, k: nat): (r: nat)
    requires k <= |free|
    ensures k <= r <= |free|
    ensures r < |free| ==> Meets(free[r], p)
    ensures forall i :: k <= i < r ==> !Meets(free[i], p)
    decreases |free| - k
  {
    if k < |free| && !Meets(free[k], p) then FindInFront(free, p, k + 1) else k
  }

  /** InsertNode into the free list, with MergeNode: at most one join on each side. */
  function InsertFree(free: seq<Node>, p: Node): seq<Node> {
    var j := FindTouching(free, p, 0);
    if j == |free| then [p] + free
    else if Meets(free[j], p) then
      var joined := free[j := JoinBack(free[j], p)];
      var k := FindBehind(joined, joined[j], 0);
      if k == |free| then joined
      else RemoveAt(joined[k := JoinFront(joined[j], joined[k])], j)
    else
      var joined := free[j := JoinFront(p, free[j])];
      var k := FindInFront(joined, joined[j], 0);
      if k == |free| then joined
      else RemoveAt(joined[k := JoinBack(joined[k], joined[j])], j)
  }

  function FindKey(mapped: seq<Node>, key: Key, k: nat): (r: nat)
    requires k <= |mapped|
    ensures k <= r <= |mapped|
    ensures r < |mapped| ==> mapped[r].key == key
    ensures forall i :: k <= i < r ==> mapped[i].key != key
    decreases |mapped| - k
  {
    if k < |mapped| && mapped[k].key != key then FindKey(mapped, key, k + 1) else k
  }

  // ---------------------------------------------------------------- page-table words

  /** A second-level entry: page address, bits 39 to 32 of it in bits 11 to 4, writable and present. */
  function Entry(address: bv64): bv32 {
    ((address & 0xFFFF_F000) as bv32) | ((((address >> 32) & 0xFF) as bv32) << 4) | 4 | 1
  }

  /** The page address the hardware reads out of an entry. */
  function PageOf(entry: bv32): bv64 {
    ((entry & 0xFFFF_F000) as bv64) | ((((entry >> 4) & 0xFF) as bv64) << 32)
  }

  /** An entry carries bits 12 to 39 of the address and is never zero. */
  lemma EntryRoundTrip(address: bv64)
    ensures PageOf(Entry(address)) == address & 0xFF_FFFF_F000
    ensures Entry(address) != 0
  {
  }

  /** An entry is present and writable, and takes no exception. */
  lemma EntryPermits(address: bv64)
    ensures Entry(address) & 0xF == 5
  {
  }

  /** The page table gives the address back iff it is page-aligned and below 2^40. */
  lemma EntryIsExact(address: bv64)
    ensures PageOf(Entry(address)) == address <==> address & 0xFFF == 0 && address >> 40 == 0
  {
    EntryRoundTrip(address);
    AlignedBits(address);
  }

  lemma AlignedBits(address: bv64)
    ensures address & 0xFF_FFFF_F000 == address <==> address & 0xFFF == 0 && address >> 40 == 0
  {
  }

  /** A first-level entry points at its second-level table and is marked present. */
  function MtlbEntry(address: nat): nat {
    (address % 0x1_0000_0000) / 32 * 32 + 1
  }

  /** The table address in a first-level entry: the hint bits are masked off. */
  function StlbBase(entry: nat): nat {
    entry / 64 * 64
  }

  /** Address arithmetic of the driver: where a mapped run starts on the bus. */
  function BusAddress(n: Node): nat {
    n.mtlbStart * 0x40_0000 + n.stlbStart * 0x1000
  }

  /** The two-level walk: the top 10 bits of the address pick a first-level entry, the next 10 an entry
      of the table it points at, both read from memory at the addresses the tables live at, and both marked
      present in bit 0. */
  function Walk(mtlb: seq<nat>, stlbPhysical: nat, stlb: seq<bv32>, va: nat): Option<bv64> {
    if va / 0x40_0000 >= |mtlb| || mtlb[va / 0x40_0000] % 2 == 0 then None
    else
      var slot := StlbBase(mtlb[va / 0x40_0000]) + va / 0x1000 % 1024 * 4;
      if slot < stlbPhysical || (slot - stlbPhysical) / 4 >= |stlb| then None
      else
        var entry := stlb[(slot - stlbPhysical) / 4];
        if entry & 1 == 0 then None else Some(PageOf(entry))
  }
}
