/** The FPGA memory allocator: a table of 16 KiB chunks in which only the first chunk of a live run
    carries the length of the run, and every other chunk reads zero, live or not. */
module ChunkAllocator {
  import opened Wrappers

  const CHUNK_SIZE: nat := 16384
  const DDR_CHUNKS: nat := 51200

  /** Chunk p belongs to the run that starts at h. */
  predicate Inside(s: seq<nat>, h: nat, p: int)
    requires h < |s|
  {
    h <= p < h + s[h]
  }

  ghost predicate Busy(s: seq<nat>, p: int) {
    exists h :: 0 <= h < |s| && Inside(s, h, p)
  }

  /** Every run is in bounds and all its chunks but the first read zero. */
  ghost predicate Inv(s: seq<nat>) {
    && |s| <= DDR_CHUNKS
    && (forall h :: 0 <= h < |s| ==> h + s[h] <= |s|)
    && (forall h, p :: 0 <= h < |s| && h < p < |s| && Inside(s, h, p) ==> s[p] == 0)
  }

  /** No two live runs share a chunk. */
  lemma RunsAreDisjoint(s: seq<nat>, g: nat, h: nat, p: nat)
    requires Inv(s) && g < |s| && h < |s| && Inside(s, g, p) && Inside(s, h, p)
    ensures g == h
  {
    if g < h {
      assert Inside(s, g, h);
    } else if h < g {
      assert Inside(s, h, g);
    }
  }

  /** n free chunks in a row, from i on. */
  ghost predicate Fits(s: seq<nat>, i: nat, n: nat) {
    i + n <= |s| && forall p :: i <= p < i + n ==> !Busy(s, p)
  }

  /** i is not in the middle of a run: the scan only ever stops at such places. */
  ghost predicate Boundary(s: seq<nat>, i: nat) {
    forall h :: 0 <= h < |s| && h < i ==> h + s[h] <= i
  }

  /** The first chunk from k on, before end, that carries a length. */
  function FirstHead(s: seq<nat>, k: nat, end: nat): (r: nat)
    requires k <= end <= |s|
    ensures k <= r <= end && (r < end ==> s[r] > 0)
    ensures forall j :: k <= j < r ==> s[j] == 0
    decreases end - k
  {
    if k < end && s[k] == 0 then FirstHead(s, k + 1, end) else k
  }

  /** The scan of hantro_fpga_memalloc for n chunks, from i on. */
  function Scan(s: seq<nat>, i: nat, n: nat): Option<nat>
    decreases |s| - i
  {
    if i >= |s| then None
    else if s[i] > 0 then Scan(s, i + s[i], n)
    else if i + n > |s| then None
    else
      var j := FirstHead(s, i, i + n);
      if j < i + n then Scan(s, j + s[j], n) else Some(i)
  }

  /** At a boundary, a stretch of zero lengths is free although zero may also mean the inside of a run. */
  lemma ZerosAreFree(s: seq<nat>, i: nat, n: nat)
    requires Inv(s) && Boundary(s, i) && i + n <= |s| && forall j :: i <= j < i + n ==> s[j] == 0
    ensures Fits(s, i, n)
  {
    forall p | i <= p < i + n
      ensures !Busy(s, p)
    {
      forall h | 0 <= h < |s|
        ensures !Inside(s, h, p)
      {
        if h >= i && h <= p {
          assert s[h] == 0;
        }
      }
    }
  }

  /** Behind a run there is a boundary again. */
  lemma BoundaryBehind(s: seq<nat>, h: nat)
    requires Inv(s) && h < |s| && Boundary(s, h) && s[h] > 0
    ensures Boundary(s, h + s[h])
  {
    forall g | 0 <= g < |s| && g < h + s[h]
      ensures g + s[g] <= h + s[h]
    {
      if g > h {
        assert Inside(s, h, g);
      }
    }
  }

  lemma BoundaryAhead(s: seq<nat>, i: nat, j: nat)
    requires Inv(s) && Boundary(s, i) && i <= j <= |s| && forall k :: i <= k < j ==> s[k] == 0
    ensures Boundary(s, j)
  {
  }

  lemma HeadIsBusy(s: seq<nat>, h: nat)
    requires h < |s| && s[h] > 0
    ensures forall p :: h <= p < h + s[h] ==> Busy(s, p)
  {
    forall p | h <= p < h + s[h]
      ensures Busy(s, p)
    {
      assert Inside(s, h, p);
    }
  }

  lemma FreeReadsZero(s: seq<nat>, p: nat)
    requires p < |s|
    ensures Busy(s, p) || s[p] == 0
  {
    if s[p] > 0 {
      HeadIsBusy(s, p);
    }
  }

  /** The scan finds the lowest fitting place at or behind a boundary, and fails iff there is none. */
  lemma {:induction false} ScanIsFirstFit(s: seq<nat>, i: nat, n: nat)
    requires Inv(s) && Boundary(s, i) && n > 0
    ensures Scan(s, i, n).None? ==> forall k :: i <= k ==> !Fits(s, k, n)
    ensures Scan(s, i, n).Some? ==>
              var r := Scan(s, i, n).value;
              i <= r && Fits(s, r, n) && Boundary(s, r) && s[r] == 0 && forall k :: i <= k < r ==> !Fits(s, k, n)
    decreases |s| - i
  {
    if i < |s| {
      if s[i] > 0 {
        BoundaryBehind(s, i);
        HeadIsBusy(s, i);
        ScanIsFirstFit(s, i + s[i], n);
        RunBlocks(s, i, i, n);
      } else if i + n <= |s| {
        var j := FirstHead(s, i, i + n);
        if j < i + n {
          BoundaryAhead(s, i, j);
          BoundaryBehind(s, j);
          ScanIsFirstFit(s, j + s[j], n);
          RunBlocks(s, i, j, n);
        } else {
          ZerosAreFree(s, i, n);
        }
      }
    }
  }

  /** A run whose head lies within n chunks of i rules out every place from i to its end. */
  lemma RunBlocks(s: seq<nat>, i: nat, j: nat, n: nat)
    requires j < |s| && s[j] > 0 && i <= j < i + n
    ensures forall k :: i <= k < j + s[j] ==> !Fits(s, k, n)
  {
    HeadIsBusy(s, j);
    forall k | i <= k < j + s[j]
      ensures !Fits(s, k, n)
    {
      var p := if k < j then j else k;
      assert Busy(s, p);
    }
  }

  // ---------------------------------------------------------------- the calls

  /** Chunks for a size in bytes, rounded up. */
  function ChunksFor(size: nat): (n: nat)
    ensures (n == 0 <==> size == 0) && size <= n * CHUNK_SIZE < size + CHUNK_SIZE
  {
    (size + CHUNK_SIZE - 1) / CHUNK_SIZE
  }

  /** The table after hantro_fpga_memalloc. */
  function Alloc(s: seq<nat>, n: nat): Option<(nat, seq<nat>)>
  {
    match Scan(s, 0, n)
    case None => None
    case Some(i) => if i < |s| then Some((i, s[i := n])) else None
  }

  /** The table after hantro_fpga_memfree of the chunk at i. */
  function Free(s: seq<nat>, i: nat): seq<nat>
    requires i < |s|
  {
    s[i := 0]
  }

  /** First fit: the lowest place whose whole run is free, and failure iff there is none. */
  lemma AllocIsFirstFit(s: seq<nat>, n: nat)
    requires Inv(s) && n > 0
    ensures Alloc(s, n).None? <==> forall k: nat :: !Fits(s, k, n)
    ensures Alloc(s, n).Some? ==>
              var (i, s') := Alloc(s, n).value;
              Fits(s, i, n) && s' == s[i := n] && forall k :: 0 <= k < i ==> !Fits(s, k, n)
  {
    ScanIsFirstFit(s, 0, n);
  }

  /** Allocation makes exactly the run it returns busy. */
  lemma AllocKeeps(s: seq<nat>, n: nat)
    requires Inv(s) && n > 0 && Alloc(s, n).Some?
    ensures var (i, s') := Alloc(s, n).value;
            && Inv(s')
            && forall p :: Busy(s', p) <==> Busy(s, p) || i <= p < i + n
  {
    ScanIsFirstFit(s, 0, n);
    var (i, s') := Alloc(s, n).value;
    forall h, p | 0 <= h < |s'| && h < p < |s'| && Inside(s', h, p)
      ensures s'[p] == 0
    {
      if h == i {
        FreeReadsZero(s, p);
      } else {
        assert Inside(s, h, p);
        assert p != i;
      }
    }
    forall p
      ensures Busy(s', p) <==> Busy(s, p) || i <= p < i + n
    {
      SameOthers(s, i, n, p);
    }
  }

  lemma SameOthers(s: seq<nat>, i: nat, n: nat, p: int)
    requires i < |s| && s[i] == 0
    ensures Busy(s[i := n], p) <==> Busy(s, p) || i <= p < i + n
  {
    var s' := s[i := n];
    if Busy(s, p) {
      var h :| 0 <= h < |s| && Inside(s, h, p);
      assert Inside(s', h, p);
    }
    if i <= p < i + n {
      assert Inside(s', i, p);
    }
    if Busy(s', p) {
      var h :| 0 <= h < |s| && Inside(s', h, p);
      assert h == i || Inside(s, h, p);
    }
  }

  /** Freeing gives back exactly the run that starts at the chunk, which may be none. */
  lemma FreeKeeps(s: seq<nat>, i: nat)
    requires Inv(s) && i < |s|
    ensures Inv(Free(s, i))
    ensures forall p :: Busy(Free(s, i), p) <==> Busy(s, p) && !(i <= p < i + s[i])
    ensures s[i] == 0 ==> Free(s, i) == s
  {
    var s' := Free(s, i);
    forall h, p | 0 <= h < |s'| && h < p < |s'| && Inside(s', h, p)
      ensures s'[p] == 0
    {
      assert Inside(s, h, p);
    }
    assert s'[i := s[i]] == s;
    forall p
      ensures Busy(s', p) <==> Busy(s, p) && !(i <= p < i + s[i])
    {
      SameOthers(s', i, s[i], p);
      if Busy(s', p) && Inside(s, i, p) {
        var h :| 0 <= h < |s| && Inside(s', h, p);
        assert Inside(s, h, p);
        RunsAreDisjoint(s, h, i, p);
      }
    }
  }

  /** Free undoes alloc. */
  lemma FreeUndoesAlloc(s: seq<nat>, n: nat)
    requires Inv(s) && n > 0 && Alloc(s, n).Some?
    ensures var (i, s') := Alloc(s, n).value; Free(s', i) == s
  {
    ScanIsFirstFit(s, 0, n);
  }

  /** A request for no bytes succeeds whenever one chunk is free, but reserves nothing: the next request
      for a single chunk is given the very same address, and freeing either frees that chunk. */
  lemma ZeroBytesAreGivenAwayAgain(s: seq<nat>)
    ensures Alloc(s, 0).Some? <==> Alloc(s, 1).Some?
    ensures Alloc(s, 0).Some? ==>
              Alloc(s, 0).value.1 == s && Alloc(s, 0).value.0 == Alloc(s, 1).value.0
  {
    ScanZero(s, 0);
  }

  lemma PlaceInBounds(s: seq<nat>, n: nat)
    requires Inv(s) && Scan(s, 0, n).Some?
    ensures Scan(s, 0, n).value + n <= DDR_CHUNKS
  {
    if n == 0 {
      ScanZero(s, 0);
    } else {
      ScanIsFirstFit(s, 0, n);
    }
  }

  lemma {:induction false} ScanZero(s: seq<nat>, i: nat)
    ensures Scan(s, i, 0) == Scan(s, i, 1)
    ensures Scan(s, i, 0).Some? ==> Scan(s, i, 0).value < |s| && s[Scan(s, i, 0).value] == 0
    decreases |s| - i
  {
    if i < |s| && s[i] > 0 {
      ScanZero(s, i + s[i]);
    }
  }

  // ---------------------------------------------------------------- any sequence of calls

  /** Requests in bytes, and frees of any chunk whatever. */
  datatype Op = OpAlloc(size: nat) | OpFree(chunk: nat)

  function Apply(s: seq<nat>, op: Op): (s': seq<nat>)
    ensures |s'| == |s|
  {
    match op
    case OpAlloc(size) =>
      var r := Alloc(s, ChunksFor(size));
      if r.Some? then r.value.1 else s
    case OpFree(chunk) => if chunk < |s| then Free(s, chunk) else s
  }

  function RunOps(s: seq<nat>, ops: seq<Op>): (s': seq<nat>)
    ensures |s'| == |s|
    decreases |ops|
  {
    if ops == [] then s else RunOps(Apply(s, ops[0]), ops[1..])
  }

  lemma ApplyKeeps(s: seq<nat>, op: Op)
    requires Inv(s)
    ensures Inv(Apply(s, op))
    ensures forall h :: 0 <= h < |s| && s[h] > 0 && op != OpFree(h) ==> Apply(s, op)[h] == s[h]
  {
    match op
    case OpAlloc(size) =>
      if size == 0 {
        ZeroBytesAreGivenAwayAgain(s);
      } else if Alloc(s, ChunksFor(size)).Some? {
        ScanIsFirstFit(s, 0, ChunksFor(size));
        AllocKeeps(s, ChunksFor(size));
      }
    case OpFree(chunk) =>
      if chunk < |s| {
        FreeKeeps(s, chunk);
      }
  }

  lemma {:induction false} RunKeeps(s: seq<nat>, ops: seq<Op>)
    requires Inv(s)
    ensures Inv(RunOps(s, ops))
    ensures forall h :: 0 <= h < |s| && s[h] > 0 && OpFree(h) !in ops ==> RunOps(s, ops)[h] == s[h]
    decreases |ops|
  {
    if ops != [] {
      ApplyKeeps(s, ops[0]);
      RunKeeps(Apply(s, ops[0]), ops[1..]);
    }
  }

  /** Two runs handed out at any time, each not given back since, are in bounds and share no chunk,
      whatever else was requested and freed before, between and after. */
  lemma LiveRunsNeverOverlap(s: seq<nat>, size: nat, between: seq<Op>, size': nat, after: seq<Op>)
    requires Inv(s) && size > 0 && size' > 0
    requires Alloc(s, ChunksFor(size)).Some?
    requires var (i, s1) := Alloc(s, ChunksFor(size)).value;
             var s2 := RunOps(s1, between);
             OpFree(i) !in between && OpFree(i) !in after && Alloc(s2, ChunksFor(size')).Some?
             && OpFree(Alloc(s2, ChunksFor(size')).value.0) !in after
    ensures var n, n' := ChunksFor(size), ChunksFor(size');
            var (i, s1) := Alloc(s, n).value;
            var (j, s3) := Alloc(RunOps(s1, between), n').value;
            var s4 := RunOps(s3, after);
            && i + n <= |s| && j + n' <= |s| && (i + n <= j || j + n' <= i)
            && s4[i] == n && s4[j] == n'
  {
    var n, n' := ChunksFor(size), ChunksFor(size');
    AllocIsFirstFit(s, n);
    AllocKeeps(s, n);
    var (i, s1) := Alloc(s, n).value;
    RunKeeps(s1, between);
    var s2 := RunOps(s1, between);
    AllocIsFirstFit(s2, n');
    AllocKeeps(s2, n');
    var (j, s3) := Alloc(s2, n').value;
    HeadIsBusy(s2, i);
    RunKeeps(s3, after);
    assert i + n <= j || j + n' <= i by {
      assert forall p :: i <= p < i + n ==> Busy(s2, p);
      assert i + n <= j || j + n' <= i || !Fits(s2, j, n') || Busy(s2, if i < j then j else i);
    }
  }

  /** Where chunk i starts in memory. */
  function AddressOf(base: nat, i: nat): nat {
    base + i * CHUNK_SIZE
  }

  /** The same in bytes: the two blocks of memory, each from its address over the size asked for, lie in
      the memory of the table and do not overlap. */
  lemma LiveBytesNeverOverlap(s: seq<nat>, base: nat, size: nat, between: seq<Op>, size': nat, after: seq<Op>)
    requires Inv(s) && size > 0 && size' > 0
    requires Alloc(s, ChunksFor(size)).Some?
    requires var (i, s1) := Alloc(s, ChunksFor(size)).value;
             var s2 := RunOps(s1, between);
             OpFree(i) !in between && OpFree(i) !in after && Alloc(s2, ChunksFor(size')).Some?
             && OpFree(Alloc(s2, ChunksFor(size')).value.0) !in after
    ensures var (i, s1) := Alloc(s, ChunksFor(size)).value;
            var (j, _) := Alloc(RunOps(s1, between), ChunksFor(size')).value;
            var a, b := AddressOf(base, i), AddressOf(base, j);
            && base <= a && a + size <= base + |s| * 16384 && base <= b && b + size' <= base + |s| * 16384
            && (a + size <= b || b + size' <= a)
  {
    LiveRunsNeverOverlap(s, size, between, size', after);
    hide Alloc, RunOps, Inv;
  }

  // ---------------------------------------------------------------- in place

  class Chunks {
    const base: nat
    const lens: array<nat>

    ghost predicate Valid()
      reads lens
    {
      base > 0 && Inv(lens[..])
    }

    /** hantro_fpga_memreset. */
    constructor (base: nat, chunks: nat)
      requires base > 0 && chunks <= DDR_CHUNKS
      ensures Valid() && fresh(lens) && this.base == base
      ensures lens.Length == chunks && forall p :: !Busy(lens[..], p)
    {
      this.base := base;
      lens := new nat[chunks](_ => 0);
    }

    function Address(i: nat): (a: nat)
      ensures a > 0 || base == 0
    {
      AddressOf(base, i)
    }

    /** The index loop of hantro_fpga_memalloc; lens.Length if it finds no place. */
    method FindPlace(n: nat) returns (i: nat)
      requires forall h :: 0 <= h < lens.Length ==> h + lens[h] <= lens.Length
      ensures Scan(lens[..], 0, n) == if i < lens.Length then Some(i) else None
    {
      i := 0;
      ghost var s := lens[..];
      while i < lens.Length
        invariant i <= lens.Length && Scan(s, 0, n) == Scan(s, i, n)
      {
        if lens[i] == 0 {
          if i + n > lens.Length {
            return lens.Length;
          }
          var j := i;
          while j < i + n && lens[j] == 0
            invariant i <= j <= i + n && FirstHead(s, i, i + n) == FirstHead(s, j, i + n)
          {
            j := j + 1;
          }
          if j == i + n {
            return i;
          }
          i := j + lens[j];
        } else {
          i := i + lens[i];
        }
      }
    }

    /** hantro_fpga_memalloc; 0 stands for the failure return. The length is stored in 16 bits. */
    method MemAlloc(size: nat) returns (address: nat)
      requires Valid() && size < 0x1_0000_0000
      modifies lens
      ensures Valid()
      ensures match Alloc(old(lens[..]), ChunksFor(size))
              case None => address == 0 && lens[..] == old(lens[..])
              case Some(r) => address == Address(r.0) && lens[..] == r.1
    {
      var n := (size + CHUNK_SIZE - 1) / CHUNK_SIZE;
      var i := FindPlace(n);
      address := 0;
      if i < lens.Length {
        ApplyKeeps(lens[..], OpAlloc(size));
        PlaceInBounds(lens[..], n);
        address := base + i * CHUNK_SIZE;
        lens[i] := n % 0x1_0000;
      }
    }

    /** hantro_fpga_memfree: fails iff no chunk has the address. */
    method MemFree(address: nat) returns (ok: bool)
      requires Valid()
      modifies lens
      ensures Valid()
      ensures ok <==> exists i :: 0 <= i < lens.Length && Address(i) == address
      ensures !ok ==> lens[..] == old(lens[..])
      ensures forall i :: 0 <= i < lens.Length && Address(i) == address ==> lens[..] == Free(old(lens[..]), i)
    {
      var i := 0;
      while i < lens.Length && base + i * CHUNK_SIZE != address
        invariant 0 <= i <= lens.Length && forall k :: 0 <= k < i ==> Address(k) != address
      {
        i := i + 1;
      }
      ok := i < lens.Length;
      if ok {
        FreeKeeps(lens[..], i);
        assert Address(i) == address;
        lens[i] := 0;
      }
    }
  }
}
