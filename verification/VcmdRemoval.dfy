/** What taking a buffer out of a linked chain does to interrupt pacing. */
module VcmdRemoval {
  import opened Wrappers
  import opened JmpWords
  import opened VcmdSpec
  import opened VcmdChain
  import opened VcmdRuns
  import opened VcmdPacing

  predicate AllQuiet(list: seq<Buf>, i: nat, j: nat)
    requires j <= |list|
  {
    forall k :: i <= k < j ==> Quiet(list[k])
  }

  /** Where the quiet stretch that starts at k ends. */
  function StretchEnd(list: seq<Buf>, k: nat): (e: nat)
    requires k <= |list|
    ensures k <= e <= |list| && AllQuiet(list, k, e) && (e < |list| ==> !Quiet(list[e]))
    decreases |list| - k
  {
    if k < |list| && Quiet(list[k]) then StretchEnd(list, k + 1) else k
  }

  /** The quiet work on both sides of the buffer at i: what becomes one stretch without it. */
  function Around(list: seq<Buf>, i: nat): nat
    requires i < |list|
  {
    Trail(list, i) + Work(list, i + 1, StretchEnd(list, i + 1))
  }

  /** list' is list without the buffer at i, as far as pacing goes. */
  predicate Without(list: seq<Buf>, list': seq<Buf>, i: nat) {
    && i < |list| && |list'| == |list| - 1
    && forall k :: 0 <= k < |list'| ==> SamePace(list[Skip(i, k)], list'[k])
  }

  predicate SamePace(a: Buf, b: Buf) {
    b.time == a.time && b.noInt == a.noInt && b.jmp.ie == a.jmp.ie && b.linked == a.linked && b.done == a.done
  }

  /** The interrupt the removal helper would force, when the accumulator is over the limit, is never
      forced in a paced state; so removal keeps every IE bit. */
  lemma RemovalKeepsPace(cfg: Config, c: Core, i: nat)
    requires i < |c.list| && c.dur < INT_MIN_SUM_OF_IMAGE_SIZE
    ensures Without(c.list, DelinkRemove(cfg, c, i).list, i)
  {
    var list' := DelinkRemove(cfg, c, i).list;
    forall k | 0 <= k < |list'|
      ensures SamePace(c.list[Skip(i, k)], list'[k])
    {
    }
  }

  /** Beyond the limit, which the accumulator never is while pacing holds, the buffer in front of the removed
      one is made to interrupt, if there is one behind; up to the limit nothing is forced. */
  lemma RemovalForces(cfg: Config, c: Core, i: nat)
    requires 0 < i && i + 1 < |c.list|
    ensures DelinkRemove(cfg, c, i).list[i - 1].jmp.ie <==> c.list[i - 1].jmp.ie || c.dur > 35389440
  {
  }

  /** Behind the gap, a stretch either begins behind it too, or continues the one in front of it. */
  lemma {:induction false} TrailBehindGap(list: seq<Buf>, list': seq<Buf>, i: nat, j: nat)
    requires Without(list, list', i) && i <= j <= |list'|
    ensures Trail(list', j) ==
              if AllQuiet(list, i + 1, j + 1) then Trail(list, i) + Work(list, i + 1, j + 1) else Trail(list, j + 1)
    decreases j
  {
    if j == i {
      forall k | 0 <= k < i
        ensures list'[k].time == list[k].time && (Quiet(list'[k]) <==> Quiet(list[k]))
      {
        assert SamePace(list[Skip(i, k)], list'[k]);
      }
      SameTrail(list, list', i);
    } else {
      TrailBehindGap(list, list', i, j - 1);
      assert SamePace(list[Skip(i, j - 1)], list'[j - 1]);
      assert Quiet(list'[j - 1]) <==> Quiet(list[j]);
      assert AllQuiet(list, i + 1, j + 1) <==> AllQuiet(list, i + 1, j) && Quiet(list[j]);
    }
  }

  lemma TrailBeforeGap(list: seq<Buf>, list': seq<Buf>, i: nat, j: nat)
    requires Without(list, list', i) && j <= i
    ensures Trail(list', j) == Trail(list, j)
  {
    forall k | 0 <= k < j
      ensures list'[k].time == list[k].time && (Quiet(list'[k]) <==> Quiet(list[k]))
    {
      assert SamePace(list[Skip(i, k)], list'[k]);
    }
    SameTrail(list, list', j);
  }

  lemma {:induction false} WorkGrows(list: seq<Buf>, i: nat, j: nat, e: nat)
    requires i <= j <= e <= |list|
    ensures Work(list, i, j) <= Work(list, i, e)
    decreases e
  {
    if j < e {
      WorkGrows(list, i, j, e - 1);
    }
  }

  lemma StretchIsLongest(list: seq<Buf>, k: nat, m: nat)
    requires k <= m <= |list| && AllQuiet(list, k, m)
    ensures m <= StretchEnd(list, k)
  {
  }

  predicate BelowLimit(list: seq<Buf>) {
    forall j :: 0 <= j <= |list| ==> Trail(list, j) < INT_MIN_SUM_OF_IMAGE_SIZE
  }

  /** Without the buffer every stretch stays below the limit iff the two around it do together. */
  lemma GapBelowLimit(list: seq<Buf>, list': seq<Buf>, i: nat)
    requires Without(list, list', i) && BelowLimit(list)
    ensures BelowLimit(list') <==> Around(list, i) < INT_MIN_SUM_OF_IMAGE_SIZE
  {
    var e := StretchEnd(list, i + 1);
    TrailBehindGap(list, list', i, e - 1);
    hide Quiet, Without;
    if Around(list, i) < INT_MIN_SUM_OF_IMAGE_SIZE {
      forall j | 0 <= j <= |list'|
        ensures Trail(list', j) < INT_MIN_SUM_OF_IMAGE_SIZE
      {
        TrailWithin(list, list', i, j);
      }
    }
  }

  lemma TrailWithin(list: seq<Buf>, list': seq<Buf>, i: nat, j: nat)
    requires Without(list, list', i) && BelowLimit(list) && Around(list, i) < INT_MIN_SUM_OF_IMAGE_SIZE && j <= |list'|
    ensures Trail(list', j) < INT_MIN_SUM_OF_IMAGE_SIZE
  {
    if j <= i {
      TrailBeforeGap(list, list', i, j);
    } else {
      TrailBehindGap(list, list', i, j);
      if AllQuiet(list, i + 1, j + 1) {
        StretchIsLongest(list, i + 1, j + 1);
        WorkGrows(list, i + 1, j + 1, StretchEnd(list, i + 1));
      }
    }
  }

  /** Taking the buffer at i out of a fully linked, paced queue keeps it paced iff the quiet work around
      the buffer stays below the limit and, where it reaches the tail, within the accumulator. */
  lemma RemovalPaced(cfg: Config, c: Core, i: nat)
    requires i < |c.list| && Paced(c, |c.list|)
    ensures var c' := DelinkRemove(cfg, c, i);
            |c'.list| == |c.list| - 1 &&
            (Paced(c', |c'.list|) <==>
               && Around(c.list, i) < INT_MIN_SUM_OF_IMAGE_SIZE
               && (StretchEnd(c.list, i + 1) == |c.list| ==> Around(c.list, i) <= c.dur))
  {
    var c' := DelinkRemove(cfg, c, i);
    assert c'.dur == c.dur;
    RemovalKeepsPace(cfg, c, i);
    hide DelinkRemove;
    GapBelowLimit(c.list, c'.list, i);
    TrailBehindGap(c.list, c'.list, i, |c'.list|);
    forall k | 0 <= k < |c'.list|
      ensures (!c'.list[k].noInt ==> c'.list[k].jmp.ie) && c'.list[k].time + INT_MIN_SUM_OF_IMAGE_SIZE <= U32
    {
      assert SamePace(c.list[Skip(i, k)], c'.list[k]);
    }
    if AllQuiet(c.list, i + 1, |c.list|) {
      StretchIsLongest(c.list, i + 1, |c.list|);
    }
    hide Quiet, Without, AllQuiet;
  }

  /** So a buffer that is quiet or finished may always go. */
  lemma QuietOrDoneMayGo(cfg: Config, c: Core, i: nat, d: nat)
    requires i < |c.list| && Paced(c, |c.list|) && Pattern(c.list, d, |c.list|)
    requires Quiet(c.list[i]) || c.list[i].done
    ensures var c' := DelinkRemove(cfg, c, i); |c'.list| == |c.list| - 1 && Paced(c', |c'.list|)
  {
    var e := StretchEnd(c.list, i + 1);
    if Quiet(c.list[i]) {
      TrailAcross(c.list, i, e);
    } else {
      assert i > 0 ==> c.list[i - 1].done;
      TrailFresh(c.list, i, e);
    }
    RemovalPaced(cfg, c, i);
  }

  lemma {:induction false} TrailFresh(list: seq<Buf>, i: nat, e: nat)
    requires i < e <= |list| && AllQuiet(list, i + 1, e) && !Quiet(list[i])
    ensures Trail(list, e) == Work(list, i + 1, e)
    decreases e
  {
    if i + 1 < e {
      TrailFresh(list, i, e - 1);
    }
  }

  lemma {:induction false} TrailAcross(list: seq<Buf>, i: nat, e: nat)
    requires i < e <= |list| && AllQuiet(list, i, e)
    ensures Trail(list, e) == Trail(list, i) + list[i].time + Work(list, i + 1, e)
    decreases e
  {
    if i + 1 < e {
      TrailAcross(list, i, e - 1);
    }
  }

  /** Three buffers of twenty million each, the middle one interrupting: without it forty million go by. */
  lemma RemovalDoublesTheStretch(cfg: Config, c: Core)
    requires |c.list| == 3 && c.dur == 20_000_000 && forall k :: 0 <= k < 3 ==> c.list[k].time == 20_000_000
    requires Quiet(c.list[0]) && c.list[1].jmp.ie && Quiet(c.list[2]) && c.list[0].noInt && c.list[2].noInt
    ensures Paced(c, 3) && !Paced(DelinkRemove(cfg, c, 1), 2)
  {
    assert Trail(c.list, 0) == 0 && Trail(c.list, 1) == 20_000_000 && Trail(c.list, 2) == 0;
    assert Trail(c.list, 3) == 20_000_000;
    assert StretchEnd(c.list, 2) == 3;
    assert Work(c.list, 2, 3) == 20_000_000;
    RemovalPaced(cfg, c, 1);
  }
}
