/** Safety of the VCMD engine over whole runs. */
module VcmdSafety {
  import opened JmpWords
  import opened VcmdSpec
  import opened VcmdChain
  import opened VcmdRecovery
  import opened VcmdQueue

  // ---------------------------------------------------------------- submission

  /** What a submission relies on: a fresh buffer whose size fits its slot, and when it preempts a
      running core, an abort report that ends the wait. */
  predicate CanSubmit(cfg: Config, c: Core, b: Buf, probe: Probe) {
    && Fresh(c.list, b) && SizeFits(cfg, b.size)
    && (Preempts(cfg, c, b, probe) && c.working ==>
          Credible(cfg, c, IrqAbort, probe.abort)
          && !(cfg.newHw && probe.abort.id >= TOTAL_DISCRETE_CMDBUF_NUM))
  }

  lemma {:induction false} FirstUndoneNormalAt(list: seq<Buf>, k: nat, d: nat, l: nat)
    requires Pattern(list, d, l) && k <= |list|
    ensures var p := FirstUndoneNormal(list, k);
            && Max(d, k) <= p <= |list|
            && (p < |list| ==> list[p].prio == Normal && !list[p].done)
            && forall i :: Max(d, k) <= i < p ==> list[i].prio == High
    decreases |list| - k
  {
    if k < |list| && !(list[k].prio == Normal && !list[k].done) {
      FirstUndoneNormalAt(list, k + 1, d, l);
    }
  }

  lemma FreshIn(list: seq<Buf>, list': seq<Buf>, b: Buf)
    requires Fresh(list, b) && SameQueue(list, list')
    ensures Fresh(list', b)
  {
    assert forall i :: 0 <= i < |list| ==> SameWork(list[i], list'[i]);
  }

  /** The state in which a submitted buffer is inserted, and where. */
  lemma PlaceForSubmit(cfg: Config, c: Core, b: Buf, probe: Probe) returns (d: nat, l: nat)
    requires Inv(cfg, c) && CanSubmit(cfg, c, b, probe)
    ensures var c1 := BeforeInsert(cfg, c, b, probe);
            var p := InsertAt(cfg, c, b, probe);
            && InvAt(cfg, c1, d, l) && SameQueue(c.list, c1.list) && DoneGrows(c.list, c1.list)
            && l <= p <= |c1.list|
            && (c1.working ==> l == p == |c1.list| && c1 == c)
            && Sound(cfg, Insert(c1.list, p, Prepared(b)), d, l)
  {
    var c1 := BeforeInsert(cfg, c, b, probe);
    if Preempts(cfg, c, b, probe) && c.working {
      IsrKeeps(cfg, c, IrqAbort, probe.abort, true);
    }
    d, l := SoundOf(cfg, c1);
    FirstUndoneNormalAt(c1.list, 0, d, l);
    FreshIn(c.list, c1.list, b);
    InsertAtPlace(cfg, c1.list, d, l, InsertAt(cfg, c, b, probe), b);
  }

  /** An accepted buffer is queued on a running core with every buffer linked. */
  lemma SubmitQueues(cfg: Config, c: Core, b: Buf, probe: Probe) returns (d: nat, l: nat)
    requires Inv(cfg, c) && CanSubmit(cfg, c, b, probe) && Accepts(cfg, c, b, probe)
    ensures var c1 := BeforeInsert(cfg, c, b, probe);
            var p := InsertAt(cfg, c, b, probe);
            var c' := Submit(cfg, c, b, probe);
            && InvAt(cfg, c1, d, l) && l <= p
            && InvAt(cfg, c', d, |c'.list|) && c'.working
            && SameQueue(Insert(c1.list, p, Prepared(b)), c'.list)
  {
    d, l := PlaceForSubmit(cfg, c, b, probe);
    var c1 := BeforeInsert(cfg, c, b, probe);
    var p := InsertAt(cfg, c, b, probe);
    var c2 := c1.(list := Insert(c1.list, p, Prepared(b)));
    if c1.working {
      LinkAndRunWorking(cfg, c2, p, d);
    } else {
      LinkAndRunIdle(cfg, c2, p, d);
    }
  }

  /** Submission keeps the invariant; a rejected buffer changes nothing. */
  lemma SubmitKeeps(cfg: Config, c: Core, b: Buf, probe: Probe)
    requires Inv(cfg, c) && CanSubmit(cfg, c, b, probe)
    ensures Inv(cfg, Submit(cfg, c, b, probe))
    ensures !Accepts(cfg, c, b, probe) ==> Submit(cfg, c, b, probe) == c
  {
    if Accepts(cfg, c, b, probe) {
      var d, l := SubmitQueues(cfg, c, b, probe);
      assert InvAt(cfg, Submit(cfg, c, b, probe), d, |Submit(cfg, c, b, probe).list|);
    }
  }

  // ---------------------------------------------------------------- release

  /** The buffers of a queue that nobody has released. */
  function Kept(list: seq<Buf>): seq<Buf> {
    if list == [] then []
    else Kept(list[..|list| - 1]) + (if list[|list| - 1].needRemove then [] else [list[|list| - 1]])
  }

  lemma KeptStep(list: seq<Buf>, b: Buf)
    ensures Kept(list + [b]) == Kept(list) + (if b.needRemove then [] else [b])
  {
    assert (list + [b])[..|list + [b]| - 1] == list;
  }

  lemma {:induction false} KeptFrom(list: seq<Buf>)
    ensures forall b :: b in Kept(list) ==> b in list && !b.needRemove
  {
    if list != [] {
      KeptFrom(list[..|list| - 1]);
    }
  }

  lemma {:induction false} SweepKeeps(list: seq<Buf>, i: nat)
    requires i < |list|
    ensures Sweep(list, i) == Kept(list[..i]) + list[i..]
    decreases i
  {
    if i > 0 {
      assert list[..i][..i - 1] == list[..i - 1];
      if list[i - 1].needRemove {
        var list' := list[..i - 1] + list[i..];
        SweepKeeps(list', i - 1);
        assert list'[..i - 1] == list[..i - 1] && list'[i - 1..] == list[i..];
      } else {
        SweepKeeps(list, i - 1);
        assert [list[i - 1]] + list[i..] == list[i - 1..];
      }
    }
  }

  /** release_cmdbuf leaves the old queue minus exactly the released buffers at or before this one,
      except that the tail stays. */
  lemma ReleaseRemoves(c: Core, r: nat)
    requires r < |c.list|
    ensures Release(c, r) == c.(list := Release(c, r).list)
    ensures Release(c, r).list ==
      Kept(c.list[..r]) + (if r + 1 == |c.list| then [c.list[r].(needRemove := true)] else c.list[r + 1..])
  {
    var list := c.list[r := c.list[r].(needRemove := true)];
    assert list[..r] == c.list[..r];
    if r + 1 == |c.list| {
      SweepKeeps(list, r);
      assert list[r..] == [list[r]];
    } else {
      SweepKeeps(list, r + 1);
      assert list[..r + 1][..r] == c.list[..r];
      assert Kept(list[..r + 1]) == Kept(c.list[..r]);
      assert list[r + 1..] == c.list[r + 1..];
    }
  }

  /** What stays queued was queued before. */
  lemma ReleasedAreOld(c: Core, r: nat)
    requires r < |c.list|
    ensures forall x :: x in Release(c, r).list ==> exists y :: y in c.list && x == y.(needRemove := x.needRemove)
  {
    ReleaseRemoves(c, r);
    KeptFrom(c.list[..r]);
    hide Release;
    forall x | x in Release(c, r).list
      ensures exists y :: y in c.list && x == y.(needRemove := x.needRemove)
    {
      if r + 1 == |c.list| && x == c.list[r].(needRemove := true) {
        assert c.list[r] in c.list && x == c.list[r].(needRemove := x.needRemove);
      } else {
        assert x in c.list && x == x.(needRemove := x.needRemove);
      }
    }
  }

  lemma ConcatDistinct(a: seq<Buf>, b: seq<Buf>)
    requires DistinctIds(a) && DistinctIds(b)
    requires forall x, y :: x in a && y in b ==> Differ(x, y)
    ensures DistinctIds(a + b)
  {
    forall i, j | 0 <= i < j < |a + b|
      ensures Differ((a + b)[i], (a + b)[j])
    {
      if i < |a| <= j {
        assert (a + b)[i] in a && (a + b)[j] in b;
      }
    }
  }

  lemma SplitDistinct(list: seq<Buf>, r: nat)
    requires r <= |list| && DistinctIds(list)
    ensures DistinctIds(list[..r]) && DistinctIds(list[r..])
    ensures forall x, y :: x in list[..r] && y in list[r..] ==> Differ(x, y)
  {
  }

  lemma {:induction false} KeptDistinct(list: seq<Buf>)
    requires DistinctIds(list)
    ensures DistinctIds(Kept(list)) && |Kept(list)| <= |list|
  {
    if list != [] {
      var k := |list| - 1;
      SplitDistinct(list, k);
      KeptDistinct(list[..k]);
      if !list[k].needRemove {
        assert list[k..] == [list[k]];
        KeptFrom(list[..k]);
        forall x, y | x in Kept(list[..k]) && y in [list[k]]
          ensures Differ(x, y)
        {
          assert x in list[..k] && y in list[k..];
        }
        ConcatDistinct(Kept(list[..k]), [list[k]]);
      }
    }
  }

  lemma HeadAndTailDistinct(list: seq<Buf>, r: nat)
    requires r <= |list| && DistinctIds(list)
    ensures DistinctIds(Kept(list[..r]) + list[r..])
  {
    SplitDistinct(list, r);
    KeptDistinct(list[..r]);
    KeptFrom(list[..r]);
    ConcatDistinct(Kept(list[..r]), list[r..]);
  }

  lemma ReleaseTail(cfg: Config, c: Core, r: nat, d: nat, l: nat)
    requires InvAt(cfg, c, d, l) && r < d && r + 1 == |c.list|
    ensures Inv(cfg, Release(c, r)) && Release(c, r).list != []
  {
    ReleaseRemoves(c, r);
    HeadAndTailDistinct(c.list, r);
    var head, last := Kept(c.list[..r]), c.list[r].(needRemove := true);
    assert c.list[r..] == [c.list[r]];
    KeptFrom(c.list[..r]);
    KeepsDistinct(head + c.list[r..], head + [last]);
    ReleaseShape(cfg, c, Release(c, r), head, [last], d, l);
  }

  lemma ReleaseInner(cfg: Config, c: Core, r: nat, d: nat, l: nat)
    requires InvAt(cfg, c, d, l) && r < d && r + 1 < |c.list|
    ensures Inv(cfg, Release(c, r)) && Release(c, r).list != []
  {
    ReleaseRemoves(c, r);
    InnerDistinct(c.list, r);
    KeptFrom(c.list[..r]);
    PrefixGrows(c.list, r, d);
    BehindIsSame(c.list, r, d, l);
    assert r + 1 <= d <= |c.list|;
    hide Release, Kept, InvAt, EndsAlike, DistinctIds, Pattern;
    ReleaseShape(cfg, c, Release(c, r), Kept(c.list[..r]), c.list[r + 1..], d, l);
  }

  lemma PrefixGrows(list: seq<Buf>, r: nat, d: nat)
    requires r <= d <= |list|
    ensures forall b :: b in list[..r] ==> b in list[..d]
  {
  }

  lemma BehindIsSame(list: seq<Buf>, r: nat, d: nat, l: nat)
    requires Pattern(list, d, l) && r < |list|
    ensures var tail := list[r + 1..];
            forall i :: 0 <= i < |tail| ==> EndsAlike(list, tail, i)
  {
  }

  /** tail[i] is what stands as far from the end of the list, but for the need-remove flag. */
  predicate EndsAlike(list: seq<Buf>, tail: seq<Buf>, i: nat)
    requires i < |tail| <= |list|
  {
    var b := list[|list| - |tail| + i];
    SameTarget(tail[i].jmp, b.jmp) && tail[i] == b.(needRemove := tail[i].needRemove)
    && (tail[i].needRemove ==> tail[i].done)
  }

  lemma InnerDistinct(list: seq<Buf>, r: nat)
    requires DistinctIds(list) && r < |list|
    ensures DistinctIds(Kept(list[..r]) + list[r + 1..])
  {
    var marked := list[r := list[r].(needRemove := true)];
    KeepsDistinct(list, marked);
    HeadAndTailDistinct(marked, r + 1);
    assert marked[..r + 1][..r] == list[..r];
    assert Kept(marked[..r + 1]) == Kept(list[..r]);
    assert marked[r + 1..] == list[r + 1..];
  }

  /** Releasing a finished buffer keeps the invariant, and the queue never becomes empty. */
  lemma ReleaseKeeps(cfg: Config, c: Core, r: nat)
    requires Inv(cfg, c) && r < |c.list| && c.list[r].done
    ensures Inv(cfg, Release(c, r))
    ensures Release(c, r).list != []
  {
    var d, l := SoundOf(cfg, c);
    if r + 1 == |c.list| {
      ReleaseTail(cfg, c, r, d, l);
    } else {
      ReleaseInner(cfg, c, r, d, l);
    }
  }

  /** Dropping done buffers in front of the undone ones shifts the invariant. */
  lemma ReleaseShape(cfg: Config, c: Core, c': Core, head: seq<Buf>, tail: seq<Buf>, d: nat, l: nat)
    requires InvAt(cfg, c, d, l) && c' == c.(list := head + tail)
    requires DistinctIds(c'.list) && tail != [] && |tail| <= |c.list|
    requires forall b :: b in head ==> b in c.list[..d]
    requires forall i :: 0 <= i < |tail| ==> EndsAlike(c.list, tail, i)
    requires |c.list| - |tail| <= d
    ensures Inv(cfg, c')
  {
    var s := |c.list| - |tail| - |head|;
    forall i | |head| <= i < |c'.list|
      ensures c'.list[i] == tail[i - |head|] && c'.list[i] == c.list[i + s].(needRemove := c'.list[i].needRemove)
      ensures SameTarget(c'.list[i].jmp, c.list[i + s].jmp) && (c'.list[i].needRemove ==> c'.list[i].done)
    {
      assert EndsAlike(c.list, tail, i - |head|);
    }
    assert forall i :: 0 <= i < |head| ==> c'.list[i] in head;
    assert Pattern(c'.list, d - s, l - s);
    assert InvAt(cfg, c', d - s, l - s);
  }
}
