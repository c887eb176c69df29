/** The address-space allocator: free and mapped nodes always partition the region, and free nodes are
    maximal, so first fit finds room iff there is room. */
module MmuRegions {
  import opened MmuSpec

  predicate Normal(n: Node) {
    && n.stlbStart < MMU_STLB_4K_ENTRY_NUM && n.stlbEnd < MMU_STLB_4K_ENTRY_NUM
    && End(n) == Start(n) + n.pages && n.pages > 0
  }

  predicate AllNormal(s: seq<Node>) {
    forall n :: n in s ==> Normal(n)
  }

  /** How many nodes of the list hold page p. */
  function Hits(s: seq<Node>, p: int): nat {
    if s == [] then 0 else (if p >= 0 && Holds(s[0], p) then 1 else 0) + Hits(s[1..], p)
  }

  function Hit(n: Node, p: int): nat {
    if p >= 0 && Holds(n, p) then 1 else 0
  }

  function Pages(s: seq<Node>): nat {
    if s == [] then 0 else s[0].pages + Pages(s[1..])
  }

  /** No node of the list ends where another starts. */
  predicate Apart(s: seq<Node>) {
    forall a, b :: a in s && b in s ==> !Meets(a, b)
  }

  /** Every page of [lo, hi) is in exactly one node and no other page is in any; the page counts add
      up; and free nodes are maximal. */
  ghost predicate Inv(r: Region, lo: nat, hi: nat) {
    && AllNormal(r.free) && AllNormal(r.mapped)
    && (forall p :: Hits(r.free, p) + Hits(r.mapped, p) == if lo <= p < hi then 1 else 0)
    && Pages(r.free) + Pages(r.mapped) == hi - lo
    && Apart(r.free)
  }

  // ---------------------------------------------------------------- counting

  lemma {:induction false} Update(s: seq<Node>, i: nat, n: Node)
    requires i < |s|
    ensures forall p :: Hits(s[i := n], p) + Hit(s[i], p) == Hits(s, p) + Hit(n, p)
    ensures Pages(s[i := n]) + s[i].pages == Pages(s) + n.pages
    decreases i
  {
    if i == 0 {
      assert s[i := n][1..] == s[1..];
    } else {
      Update(s[1..], i - 1, n);
      assert s[i := n][1..] == s[1..][i - 1 := n];
    }
  }

  lemma {:induction false} Remove(s: seq<Node>, i: nat)
    requires i < |s|
    ensures forall p :: Hits(RemoveAt(s, i), p) + Hit(s[i], p) == Hits(s, p)
    ensures Pages(RemoveAt(s, i)) + s[i].pages == Pages(s)
    decreases i
  {
    if i == 0 {
      assert RemoveAt(s, i) == s[1..];
    } else {
      Remove(s[1..], i - 1);
      assert RemoveAt(s, i)[1..] == RemoveAt(s[1..], i - 1);
    }
  }

  lemma {:induction false} Member(s: seq<Node>, i: nat, p: nat)
    requires i < |s| && Holds(s[i], p)
    ensures Hits(s, p) >= 1
    decreases i
  {
    if i > 0 {
      Member(s[1..], i - 1, p);
    }
  }

  lemma TwoMembers(s: seq<Node>, i: nat, j: nat, p: nat)
    requires i < |s| && j < |s| && i != j && Holds(s[i], p) && Holds(s[j], p)
    ensures Hits(s, p) >= 2
  {
    Remove(s, i);
    Member(RemoveAt(s, i), if j < i then j else j - 1, p);
  }

  lemma {:induction false} SomeHolder(s: seq<Node>, p: nat) returns (i: nat)
    requires Hits(s, p) >= 1
    ensures i < |s| && Holds(s[i], p)
  {
    if Holds(s[0], p) {
      i := 0;
    } else {
      i := SomeHolder(s[1..], p);
      i := i + 1;
    }
  }

  // ---------------------------------------------------------------- splitting

  lemma LinearSplits(m: nat, s: nat, n: nat)
    ensures Linear((n + s) / MMU_STLB_4K_ENTRY_NUM + m, (n + s) % MMU_STLB_4K_ENTRY_NUM) == Linear(m, s) + n
    ensures (n + s) % MMU_STLB_4K_ENTRY_NUM < MMU_STLB_4K_ENTRY_NUM
  {
    var q := (n + s) / MMU_STLB_4K_ENTRY_NUM;
    assert n + s == q * 1024 + (n + s) % 1024;
  }

  lemma LinearInjective(m: nat, s: nat, m': nat, s': nat)
    requires s < MMU_STLB_4K_ENTRY_NUM && s' < MMU_STLB_4K_ENTRY_NUM
    ensures Linear(m, s) == Linear(m', s') <==> m == m' && s == s'
  {
  }

  lemma MeetsIsLinear(a: Node, b: Node)
    requires Normal(a) && Normal(b)
    ensures Meets(a, b) <==> End(a) == Start(b)
  {
    LinearInjective(a.mtlbEnd, a.stlbEnd, b.mtlbStart, b.stlbStart);
  }

  /** Cutting a free node: two adjacent parts with its pages between them, in radix 1024. */
  lemma Parts(f: Node, n: nat, key: Key, phys: seq<bv64>)
    requires Normal(f) && 0 < n <= f.pages
    ensures var a := FrontPart(f, n, key, phys);
            && Normal(a) && Start(a) == Start(f) && End(a) == Start(f) + n
            && (n == f.pages ==> End(a) == End(f))
    ensures n < f.pages ==>
              var b := BackPart(f, n);
              Normal(b) && Start(b) == Start(f) + n && End(b) == End(f)
  {
    LinearSplits(f.mtlbStart, f.stlbStart, n);
  }

  lemma BackPartApart(free: seq<Node>, i: nat, n: nat)
    requires AllNormal(free) && Apart(free) && i < |free| && 0 < n < free[i].pages
    requires forall p :: Hits(free, p) <= 1
    ensures Apart(free[i := BackPart(free[i], n)])
  {
    var f, b := free[i], BackPart(free[i], n);
    Parts(f, n, f.key, f.phys);
    var free' := free[i := b];
    forall x, y | x in free' && y in free'
      ensures !Meets(x, y)
    {
      if y == b && x != b {
        var j :| 0 <= j < |free| && j != i && free[j] == x;
        var p := Start(f) + n - 1;
        MeetsIsLinear(x, b);
        if Holds(x, p) {
          TwoMembers(free, i, j, p);
        }
      } else if y == b {
        MeetsIsLinear(b, b);
      } else {
        assert y in free && (x == b || x in free);
        assert !Meets(f, y);
      }
    }
  }

  lemma SplitKeeps(r: Region, lo: nat, hi: nat, i: nat, n: nat, key: Key, phys: seq<bv64>)
    requires Inv(r, lo, hi) && i < |r.free| && 0 < n <= r.free[i].pages
    ensures Inv(Split(r, i, n, key, phys), lo, hi)
  {
    var a := FrontPart(r.free[i], n, key, phys);
    Parts(r.free[i], n, key, phys);
    assert Normal(a);
    SplitFreeList(r.free, i, n, a);
    assert forall p :: Hits([a] + r.mapped, p) == Hit(a, p) + Hits(r.mapped, p) by {
      assert ([a] + r.mapped)[1..] == r.mapped;
    }
    hide FrontPart, BackPart;
    var r' := Split(r, i, n, key, phys);
    assert r'.mapped[1..] == r.mapped;
  }

  /** What the front part takes from the free list. */
  lemma SplitFreeList(free: seq<Node>, i: nat, n: nat, a: Node)
    requires AllNormal(free) && Apart(free) && i < |free| && 0 < n <= free[i].pages && a.pages == n
    requires forall p :: Hits(free, p) <= 1
    requires forall p :: Hit(a, p) == if Start(free[i]) <= p < Start(free[i]) + n then 1 else 0
    ensures var free' := if free[i].pages == n then RemoveAt(free, i) else free[i := BackPart(free[i], n)];
            && AllNormal(free') && Apart(free') && Pages(free') + n == Pages(free)
            && forall p :: Hits(free', p) + Hit(a, p) == Hits(free, p)
  {
    var f := free[i];
    Parts(f, n, a.key, a.phys);
    if f.pages == n {
      Remove(free, i);
      assert forall x :: x in RemoveAt(free, i) ==> x in free;
      assert forall p :: Hit(f, p) == Hit(a, p);
    } else {
      var b := BackPart(f, n);
      Update(free, i, b);
      BackPartApart(free, i, n);
      assert forall p :: Hit(f, p) == Hit(a, p) + Hit(b, p);
    }
  }

  // ---------------------------------------------------------------- coalescing

  /** Two nodes that meet are one longer node. */
  lemma Joined(a: Node, b: Node)
    requires Normal(a) && Normal(b) && Meets(a, b)
    ensures Normal(JoinBack(a, b)) && Normal(JoinFront(a, b))
    ensures Start(JoinBack(a, b)) == Start(JoinFront(a, b)) == Start(a)
    ensures End(JoinBack(a, b)) == End(JoinFront(a, b)) == End(b)
    ensures forall p :: Hit(JoinBack(a, b), p) == Hit(JoinFront(a, b), p) == Hit(a, p) + Hit(b, p)
  {
    MeetsIsLinear(a, b);
  }

  lemma NeverMeetsItself(n: Node)
    requires Normal(n)
    ensures !Meets(n, n)
  {
    MeetsIsLinear(n, n);
  }

  /** free' is free with the pages of n taken in. */
  ghost predicate Absorbed(free: seq<Node>, n: Node, free': seq<Node>) {
    && AllNormal(free') && Apart(free')
    && Pages(free') == Pages(free) + n.pages
    && forall q :: Hits(free', q) == Hits(free, q) + Hit(n, q)
  }

  /** The case that n touches nothing. */
  lemma AbsorbAlone(free: seq<Node>, n: Node)
    requires AllNormal(free) && Apart(free) && Normal(n)
    requires forall x :: x in free ==> !Meets(x, n) && !Meets(n, x)
    ensures Absorbed(free, n, [n] + free)
  {
    NeverMeetsItself(n);
    assert ([n] + free)[1..] == free;
  }

  predicate SameStart(a: Node, b: Node) {
    a.mtlbStart == b.mtlbStart && a.stlbStart == b.stlbStart
  }

  predicate SameEnd(a: Node, b: Node) {
    a.mtlbEnd == b.mtlbEnd && a.stlbEnd == b.stlbEnd
  }

  /** A node bounded like free ones on both sides touches none of them. */
  lemma BoundedApart(free: seq<Node>, free': seq<Node>, c: Node, j: nat, k: nat)
    requires AllNormal(free) && Apart(free) && Normal(c) && j < |free| && k < |free|
    requires SameStart(c, free[j]) && SameEnd(c, free[k])
    requires forall x :: x in free' ==> x == c || x in free
    ensures AllNormal(free') && Apart(free')
  {
    NeverMeetsItself(c);
    forall x, y | x in free' && y in free'
      ensures !Meets(x, y)
    {
      if x in free {
        assert !Meets(x, free[j]);
      }
      if y in free {
        assert !Meets(free[k], y);
      }
    }
  }

  lemma DropElements(free: seq<Node>, b: Node, c: Node, j: nat, k: nat)
    requires j < |free| && k < |free| && j != k
    ensures forall x :: x in RemoveAt(free[j := b][k := c], j) ==> x == c || x in free
  {
    var free' := RemoveAt(free[j := b][k := c], j);
    forall x | x in free'
      ensures x == c || x in free
    {
      var i :| 0 <= i < |free'| && free'[i] == x;
      assert x == free[j := b][k := c][if i < j then i else i + 1];
    }
  }

  /** n continues the free node at j; the result may in turn run into the one at k. */
  lemma AbsorbAtEnd(free: seq<Node>, n: Node, j: nat)
    requires AllNormal(free) && Apart(free) && Normal(n) && j < |free| && Meets(free[j], n)
    ensures var joined := free[j := JoinBack(free[j], n)];
            var k := FindBehind(joined, joined[j], 0);
            && (k == |free| ==> Absorbed(free, n, joined))
            && (k < |free| ==> k != j && Absorbed(free, n, RemoveAt(joined[k := JoinFront(joined[j], joined[k])], j)))
  {
    var b := JoinBack(free[j], n);
    var joined := free[j := b];
    Joined(free[j], n);
    Update(free, j, b);
    NeverMeetsItself(b);
    var k := FindBehind(joined, b, 0);
    if k == |free| {
      ApartJoined(free, b, j, joined);
    } else {
      var c := JoinFront(b, free[k]);
      Joined(b, free[k]);
      JoinAndDrop(joined, c, j, k);
      DropElements(free, b, c, j, k);
      BoundedApart(free, RemoveAt(joined[k := c], j), c, j, k);
    }
  }

  /** A join that keeps one bound of the node at j and meets nothing on the other side. */
  lemma ApartJoined(free: seq<Node>, b: Node, j: nat, joined: seq<Node>)
    requires AllNormal(free) && Apart(free) && Normal(b) && j < |free| && joined == free[j := b]
    requires (SameStart(b, free[j]) && forall i :: 0 <= i < |free| ==> !Meets(b, joined[i]))
             || (SameEnd(b, free[j]) && forall i :: 0 <= i < |free| ==> !Meets(joined[i], b))
    ensures AllNormal(joined) && Apart(joined)
  {
    forall x, y | x in joined && y in joined
      ensures !Meets(x, y)
    {
      if x in free {
        assert !Meets(x, free[j]);
      }
      if y in free {
        assert !Meets(free[j], y);
      }
    }
  }

  /** n leads up to the free node at j; the result may in turn continue the one at k. */
  lemma AbsorbAtStart(free: seq<Node>, n: Node, j: nat)
    requires AllNormal(free) && Apart(free) && Normal(n) && j < |free| && Meets(n, free[j])
    ensures var joined := free[j := JoinFront(n, free[j])];
            var k := FindInFront(joined, joined[j], 0);
            && (k == |free| ==> Absorbed(free, n, joined))
            && (k < |free| ==> k != j && Absorbed(free, n, RemoveAt(joined[k := JoinBack(joined[k], joined[j])], j)))
  {
    var b := JoinFront(n, free[j]);
    var joined := free[j := b];
    Joined(n, free[j]);
    Update(free, j, b);
    NeverMeetsItself(b);
    var k := FindInFront(joined, b, 0);
    if k == |free| {
      ApartJoined(free, b, j, joined);
    } else {
      var c := JoinBack(free[k], b);
      Joined(free[k], b);
      JoinAndDrop(joined, c, j, k);
      DropElements(free, b, c, j, k);
      BoundedApart(free, RemoveAt(joined[k := c], j), c, k, j);
    }
  }

  /** Replacing k by its join with j and dropping j changes no page. */
  lemma JoinAndDrop(s: seq<Node>, c: Node, j: nat, k: nat)
    requires j < |s| && k < |s| && j != k
    requires c.pages == s[j].pages + s[k].pages
    requires forall q :: Hit(c, q) == Hit(s[j], q) + Hit(s[k], q)
    ensures forall q :: Hits(RemoveAt(s[k := c], j), q) == Hits(s, q)
    ensures Pages(RemoveAt(s[k := c], j)) == Pages(s)
  {
    Update(s, k, c);
    Remove(s[k := c], j);
  }

  /** InsertNode with MergeNode: the free list takes n in, joining it on both sides where it can. */
  lemma InsertFreeAbsorbs(free: seq<Node>, n: Node)
    requires AllNormal(free) && Apart(free) && Normal(n)
    ensures Absorbed(free, n, InsertFree(free, n))
  {
    var j := FindTouching(free, n, 0);
    if j == |free| {
      AbsorbAlone(free, n);
    } else if Meets(free[j], n) {
      AbsorbAtEnd(free, n, j);
    } else {
      AbsorbAtStart(free, n, j);
    }
  }
}
