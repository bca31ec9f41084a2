/** The executable-memory allocator of CPURecompiler: a list of MemBlock
    headers that tiles one region, each header followed by its payload.
    Blocks are kept in list order, which is also address order, so a block's
    header offset is the extent of the blocks before it; `h` is the header
    size (sizeof(MemBlock)). These are the specification functions; the
    imperative AllocBlock / FreeBlock in the Recompiler module are proved
    against them. */
module MemBlocks {
  import opened Failure
  import opened Opcode

  /** MEMBLOCK_MAGIC, "MEMB". */
  const Magic: bv32 := 0x4D45_4D42

  /** A header: payload size, free flag and magic. The next/prev links are
      the sequence order. */
  datatype MemBlock = MemBlock(size: nat, free: bool, magic: bv32)

  /** What a successful allocation leaves: the new list and the payload
      offset handed to the caller. */
  datatype Allocation = Allocation(blocks: seq<MemBlock>, ptr: nat)

  /** Bytes spanned by a run of blocks, headers included. */
  function Extent(bs: seq<MemBlock>, h: nat): nat
  {
    if |bs| == 0 then 0 else Extent(bs[..|bs| - 1], h) + bs[|bs| - 1].size + h
  }

  /** Header offset of block i. */
  function Offset(bs: seq<MemBlock>, i: nat, h: nat): nat
    requires i <= |bs|
  {
    Extent(bs[..i], h)
  }

  /** Payload offsets of the blocks in use, for a run starting at `base`. */
  function Used(bs: seq<MemBlock>, base: nat, h: nat): set<nat>
  {
    if |bs| == 0 then {}
    else
      var k := |bs| - 1;
      Used(bs[..k], base, h) + (if bs[k].free then {} else {base + Extent(bs[..k], h) + h})
  }

  /** Coalescing has done its job: no two neighbours are both free. */
  predicate NoAdjacentFree(bs: seq<MemBlock>)
  {
    forall k :: 0 < k < |bs| ==> !(bs[k - 1].free && bs[k].free)
  }

  /** Every block in use carries the magic. */
  predicate MagicOnUsed(bs: seq<MemBlock>)
  {
    forall k :: 0 <= k < |bs| && !bs[k].free ==> bs[k].magic == Magic
  }

  predicate Fits(b: MemBlock, req: nat)
  {
    b.free && b.size >= req
  }

  /** The first block in list order that is free and large enough. */
  function FirstFit(bs: seq<MemBlock>, req: nat): (r: Option<nat>)
    ensures r.Some? ==> r.value < |bs| && Fits(bs[r.value], req)
    ensures r.Some? ==> forall k :: 0 <= k < r.value ==> !Fits(bs[k], req)
    ensures r.None? ==> forall k :: 0 <= k < |bs| ==> !Fits(bs[k], req)
  {
    FirstFitFrom(bs, req, 0)
  }

  function FirstFitFrom(bs: seq<MemBlock>, req: nat, i: nat): (r: Option<nat>)
    requires i <= |bs|
    requires forall k :: 0 <= k < i ==> !Fits(bs[k], req)
    ensures r.Some? ==> r.value < |bs| && Fits(bs[r.value], req)
    ensures r.Some? ==> forall k :: 0 <= k < r.value ==> !Fits(bs[k], req)
    ensures r.None? ==> forall k :: 0 <= k < |bs| ==> !Fits(bs[k], req)
    decreases |bs| - i
  {
    if i == |bs| then None
    else if Fits(bs[i], req) then Some(i)
    else FirstFitFrom(bs, req, i + 1)
  }

  /** The block whose payload starts at `ptr`, if any (FreeBlock finds the
      header `h` bytes before the pointer). */
  function Locate(bs: seq<MemBlock>, ptr: nat, h: nat): (r: Option<nat>)
    ensures r.Some? ==> r.value < |bs| && Offset(bs, r.value, h) + h == ptr
    ensures r.None? ==> forall k :: 0 <= k < |bs| ==> Offset(bs, k, h) + h != ptr
  {
    LocateFrom(bs, ptr, h, 0)
  }

  function LocateFrom(bs: seq<MemBlock>, ptr: nat, h: nat, i: nat): (r: Option<nat>)
    requires i <= |bs|
    requires forall k :: 0 <= k < i ==> Offset(bs, k, h) + h != ptr
    ensures r.Some? ==> r.value < |bs| && Offset(bs, r.value, h) + h == ptr
    ensures r.None? ==> forall k :: 0 <= k < |bs| ==> Offset(bs, k, h) + h != ptr
    decreases |bs| - i
  {
    if i == |bs| then None
    else if Offset(bs, i, h) + h == ptr then Some(i)
    else LocateFrom(bs, ptr, h, i + 1)
  }

  /** Taking block `b` for a request: split off a free remainder when it can
      hold a header plus 4 bytes, otherwise take the block whole, keeping its
      size. The remainder's magic is never consulted while it is free; the
      model gives it 0. */
  function Take(b: MemBlock, req: nat, h: nat): (r: seq<MemBlock>)
    requires Fits(b, req)
  {
    if b.size >= req + h + 4 then [MemBlock(req, false, Magic), MemBlock(b.size - req - h, true, 0)]
    else [MemBlock(b.size, false, Magic)]
  }

  /** AllocBlock: first fit, split or take whole, hand out the payload. No
      fitting block is fatal. */
  function AllocSpec(bs: seq<MemBlock>, req: nat, h: nat): Result<Allocation>
  {
    match FirstFit(bs, req)
    case None => Err(OutOfMemory(req))
    case Some(i) => Ok(Allocation(bs[..i] + Take(bs[i], req, h) + bs[i + 1..], Offset(bs, i, h) + h))
  }

  /** Absorb block j+1 into block j: block j grows by the neighbour's size
      plus its header. */
  function MergeNext(s: seq<MemBlock>, j: nat, h: nat): seq<MemBlock>
    requires j + 1 < |s|
  {
    s[..j] + [s[j].(size := s[j].size + s[j + 1].size + h)] + s[j + 2..]
  }

  /** The release steps of FreeBlock: mark free, merge into a free
      predecessor, then absorb a free successor. */
  function Release(bs: seq<MemBlock>, i: nat, h: nat): seq<MemBlock>
    requires i < |bs|
  {
    var s := bs[i := bs[i].(free := true)];
    var s1 := if i > 0 && s[i - 1].free then MergeNext(s, i - 1, h) else s;
    var j := if i > 0 && s[i - 1].free then i - 1 else i;
    if j + 1 < |s1| && s1[j + 1].free then MergeNext(s1, j, h) else s1
  }

  /** FreeBlock: a pointer that is not a payload start, or whose block is
      free or lacks the magic, is fatal and changes nothing. */
  function FreeSpec(bs: seq<MemBlock>, ptr: nat, h: nat): Result<seq<MemBlock>>
  {
    match Locate(bs, ptr, h)
    case None => Err(InvalidPointer(ptr))
    case Some(i) =>
      if bs[i].free || bs[i].magic != Magic then Err(DoubleFree(ptr))
      else Ok(Release(bs, i, h))
  }

  // ---------------------------------------------------------------------
  // Extent and Used over concatenations

  lemma {:induction false} ExtentAppend(a: seq<MemBlock>, b: seq<MemBlock>, h: nat)
    ensures Extent(a + b, h) == Extent(a, h) + Extent(b, h)
    decreases |b|
  {
    if |b| == 0 {
      assert a + b == a;
    } else {
      var ab := a + b;
      assert ab[..|ab| - 1] == a + b[..|b| - 1];
      ExtentAppend(a, b[..|b| - 1], h);
    }
  }

  lemma ExtentSingle(b: MemBlock, h: nat)
    ensures Extent([b], h) == b.size + h
  {
    assert [b][..0] == [];
  }

  lemma {:induction false} UsedAppend(a: seq<MemBlock>, b: seq<MemBlock>, base: nat, h: nat)
    ensures Used(a + b, base, h) == Used(a, base, h) + Used(b, base + Extent(a, h), h)
    decreases |b|
  {
    if |b| == 0 {
      assert a + b == a;
    } else {
      var ab := a + b;
      var k := |b| - 1;
      assert ab[..|ab| - 1] == a + b[..k];
      assert ab[|ab| - 1] == b[k];
      UsedAppend(a, b[..k], base, h);
      ExtentAppend(a, b[..k], h);
    }
  }

  lemma UsedSingle(b: MemBlock, base: nat, h: nat)
    ensures Used([b], base, h) == if b.free then {} else {base + h}
  {
    assert [b][..0] == [];
  }

  /** A payload offset lies after its run's first header and inside the
      run. */
  lemma {:induction false} UsedBounds(bs: seq<MemBlock>, base: nat, h: nat)
    ensures forall x :: x in Used(bs, base, h) ==> base + h <= x <= base + Extent(bs, h)
    decreases |bs|
  {
    if |bs| > 0 {
      UsedBounds(bs[..|bs| - 1], base, h);
    }
  }

  lemma NotUsedOutside(bs: seq<MemBlock>, base: nat, h: nat, p: nat)
    requires p < base + h || p > base + Extent(bs, h)
    ensures p !in Used(bs, base, h)
  {
    UsedBounds(bs, base, h);
  }

  lemma Extent3(pre: seq<MemBlock>, mid: seq<MemBlock>, post: seq<MemBlock>, h: nat)
    ensures Extent(pre + mid + post, h) == Extent(pre, h) + Extent(mid, h) + Extent(post, h)
  {
    ExtentAppend(pre, mid, h);
    ExtentAppend(pre + mid, post, h);
  }

  /** The pointers in use of three consecutive runs; the middle one starts
      at offset `o` and the last at `e`. */
  lemma Used3(pre: seq<MemBlock>, mid: seq<MemBlock>, post: seq<MemBlock>, h: nat, o: nat, e: nat)
    requires o == Extent(pre, h) && e == o + Extent(mid, h)
    ensures Used(pre + mid + post, 0, h) == Used(pre, 0, h) + Used(mid, o, h) + Used(post, e, h)
  {
    UsedAppend(pre, mid, 0, h);
    UsedAt(mid, 0 + Extent(pre, h), o, h);
    UsedAppend(pre + mid, post, 0, h);
    ExtentAppend(pre, mid, h);
    UsedAt(post, 0 + Extent(pre + mid, h), e, h);
  }

  // ---------------------------------------------------------------------
  // Allocation

  lemma TakeShape(b: MemBlock, req: nat, h: nat, base: nat)
    requires Fits(b, req)
    ensures Extent(Take(b, req, h), h) == b.size + h
    ensures Used(Take(b, req, h), base, h) == {base + h}
    ensures !Take(b, req, h)[0].free && Take(b, req, h)[0].size >= req
    ensures forall k :: 1 <= k < |Take(b, req, h)| ==> Take(b, req, h)[k].free
  {
    var t := Take(b, req, h);
    if b.size >= req + h + 4 {
      assert t == [t[0]] + [t[1]];
      ExtentAppend([t[0]], [t[1]], h);
      ExtentSingle(t[0], h);
      ExtentSingle(t[1], h);
      UsedAppend([t[0]], [t[1]], base, h);
      UsedSingle(t[0], base, h);
      UsedSingle(t[1], base + Extent([t[0]], h), h);
    } else {
      ExtentSingle(t[0], h);
      UsedSingle(t[0], base, h);
    }
  }

  /** Allocation fails exactly when no free block is large enough, and
      otherwise hands out the payload of the first one that is. */
  lemma AllocFirstFit(bs: seq<MemBlock>, req: nat, h: nat)
    ensures AllocSpec(bs, req, h).Err? <==> forall k :: 0 <= k < |bs| ==> !Fits(bs[k], req)
    ensures AllocSpec(bs, req, h).Err? ==> AllocSpec(bs, req, h).error == OutOfMemory(req)
    ensures AllocSpec(bs, req, h).Ok? ==>
      exists i :: 0 <= i < |bs| && Fits(bs[i], req) && AllocSpec(bs, req, h).value.ptr == Offset(bs, i, h) + h &&
        forall k :: 0 <= k < i ==> !Fits(bs[k], req)
  {
  }

  /** Allocation hands out a pointer not in use before, and adds exactly
      that pointer to the pointers in use. */
  lemma AllocUsed(bs: seq<MemBlock>, req: nat, h: nat)
    requires h > 0
    requires AllocSpec(bs, req, h).Ok?
    ensures AllocSpec(bs, req, h).value.ptr !in Used(bs, 0, h)
    ensures Used(AllocSpec(bs, req, h).value.blocks, 0, h) == Used(bs, 0, h) + {AllocSpec(bs, req, h).value.ptr}
  {
    AllocFresh(bs, req, h);
    AllocAddsPtr(bs, req, h);
  }

  lemma AllocFresh(bs: seq<MemBlock>, req: nat, h: nat)
    requires h > 0
    requires AllocSpec(bs, req, h).Ok?
    ensures AllocSpec(bs, req, h).value.ptr !in Used(bs, 0, h)
  {
    var a := AllocSpec(bs, req, h).value;
    AllocCut(bs, req, h);
    TakeAtFresh(bs, req, h, FirstFit(bs, req).value, a.blocks, a.ptr);
  }

  lemma AllocAddsPtr(bs: seq<MemBlock>, req: nat, h: nat)
    requires h > 0
    requires AllocSpec(bs, req, h).Ok?
    ensures Used(AllocSpec(bs, req, h).value.blocks, 0, h) == Used(bs, 0, h) + {AllocSpec(bs, req, h).value.ptr}
  {
    var a := AllocSpec(bs, req, h).value;
    AllocCut(bs, req, h);
    TakeAtUsed(bs, req, h, FirstFit(bs, req).value, a.blocks, a.ptr);
  }

  /** Allocation keeps the tiling of the region. */
  lemma AllocExtent(bs: seq<MemBlock>, req: nat, h: nat)
    requires h > 0
    requires AllocSpec(bs, req, h).Ok?
    ensures Extent(AllocSpec(bs, req, h).value.blocks, h) == Extent(bs, h)
  {
    var a := AllocSpec(bs, req, h).value;
    AllocCut(bs, req, h);
    TakeAtExtent(bs, req, h, FirstFit(bs, req).value, a.blocks, a.ptr);
  }

  /** `nbs` is `bs` with block i taken for the request, and `p` is block
      i's payload. */
  ghost predicate TakeCut(bs: seq<MemBlock>, req: nat, h: nat, i: nat, nbs: seq<MemBlock>, p: nat)
  {
    i < |bs| && Fits(bs[i], req) && nbs == bs[..i] + Take(bs[i], req, h) + bs[i + 1..] && p == Offset(bs, i, h) + h
  }

  /** AllocSpec takes the first fit. */
  lemma AllocCut(bs: seq<MemBlock>, req: nat, h: nat)
    requires AllocSpec(bs, req, h).Ok?
    ensures FirstFit(bs, req).Some?
    ensures TakeCut(bs, req, h, FirstFit(bs, req).value, AllocSpec(bs, req, h).value.blocks, AllocSpec(bs, req, h).value.ptr)
  {
  }

  lemma TakeAtExtent(bs: seq<MemBlock>, req: nat, h: nat, i: nat, nbs: seq<MemBlock>, p: nat)
    requires h > 0 && TakeCut(bs, req, h, i, nbs, p)
    ensures Extent(nbs, h) == Extent(bs, h)
  {
    var pre, b, post := bs[..i], bs[i], bs[i + 1..];
    TakeShape(b, req, h, Extent(pre, h));
    Split3(bs, i, i + 1);
    assert bs[i..i + 1] == [b];
    ExtentSingle(b, h);
    SameExtentSwap(pre, [b], Take(b, req, h), post, h);
  }

  lemma TakeAtFresh(bs: seq<MemBlock>, req: nat, h: nat, i: nat, nbs: seq<MemBlock>, p: nat)
    requires h > 0 && TakeCut(bs, req, h, i, nbs, p)
    ensures p !in Used(bs, 0, h)
  {
    Split3(bs, i, i + 1);
    assert bs[i..i + 1] == [bs[i]];
    FreeBlockFresh(bs[..i], bs[i], bs[i + 1..], h);
  }

  lemma TakeAtUsed(bs: seq<MemBlock>, req: nat, h: nat, i: nat, nbs: seq<MemBlock>, p: nat)
    requires h > 0 && TakeCut(bs, req, h, i, nbs, p)
    ensures Used(nbs, 0, h) == Used(bs, 0, h) + {p}
  {
    var pre, b, post := bs[..i], bs[i], bs[i + 1..];
    TakeShape(b, req, h, Extent(pre, h));
    Split3(bs, i, i + 1);
    assert bs[i..i + 1] == [b];
    SwapBlock(pre, b, Take(b, req, h), post, h);
  }

  /** The payload of a free block is not in use. */
  lemma FreeBlockFresh(pre: seq<MemBlock>, b: MemBlock, post: seq<MemBlock>, h: nat)
    requires h > 0 && b.free
    ensures Extent(pre, h) + h !in Used(pre + [b] + post, 0, h)
  {
    var o := Extent(pre, h);
    var e := b.size + h;
    Outside(pre, post, e, o + h, h);
    AddFresh(Used(pre, 0, h), Used(post, o + e, h), o + h);
    ExtentSingle(b, h);
    UsedSingle(b, o, h);
    Used3(pre, [b], post, h, o, o + e);
  }

  /** A free block replaced by a run of the same extent whose only block in
      use starts it. */
  lemma SwapBlock(pre: seq<MemBlock>, b: MemBlock, t: seq<MemBlock>, post: seq<MemBlock>, h: nat)
    requires h > 0 && b.free
    requires Extent(t, h) == b.size + h
    requires Used(t, Extent(pre, h), h) == {Extent(pre, h) + h}
    ensures Used(pre + t + post, 0, h) == Used(pre + [b] + post, 0, h) + {Extent(pre, h) + h}
  {
    var o := Extent(pre, h);
    var e := b.size + h;
    Outside(pre, post, e, o + h, h);
    AddFresh(Used(pre, 0, h), Used(post, o + e, h), o + h);
    ExtentSingle(b, h);
    UsedSingle(b, o, h);
    SwapUsed(pre, [b], t, post, h, {}, {o + h}, o, o + e);
  }

  /** A payload offset inside a middle part of extent `e` is in use neither
      before nor after it. */
  lemma Outside(pre: seq<MemBlock>, post: seq<MemBlock>, e: nat, p: nat, h: nat)
    requires h > 0 && Extent(pre, h) < p < Extent(pre, h) + e + h
    ensures p !in Used(pre, 0, h)
    ensures p !in Used(post, Extent(pre, h) + e, h)
  {
    NotUsedOutside(pre, 0, h, p);
    NotUsedOutside(post, Extent(pre, h) + e, h, p);
  }

  /** The pointers in use around two middle parts of the same extent: the
      middle part starts at offset `o` and the rest at `e`. */
  lemma SwapUsed(pre: seq<MemBlock>, a: seq<MemBlock>, b: seq<MemBlock>, post: seq<MemBlock>, h: nat,
                 ma: set<nat>, mb: set<nat>, o: nat, e: nat)
    requires o == Extent(pre, h) && e == o + Extent(a, h) && Extent(a, h) == Extent(b, h)
    requires Used(a, o, h) == ma && Used(b, o, h) == mb
    ensures Used(pre + a + post, 0, h) == Used(pre, 0, h) + ma + Used(post, e, h)
    ensures Used(pre + b + post, 0, h) == Used(pre, 0, h) + mb + Used(post, e, h)
  {
    Used3(pre, a, post, h, o, e);
    Used3(pre, b, post, h, o, e);
  }

  lemma AddFresh(A: set<nat>, B: set<nat>, p: nat)
    requires p !in A && p !in B
    ensures p !in A + {} + B
    ensures A + {p} + B == (A + {} + B) + {p}
  {
  }

  /** Swapping a middle part for one of the same extent keeps the extent. */
  lemma SameExtentSwap(pre: seq<MemBlock>, a: seq<MemBlock>, b: seq<MemBlock>, post: seq<MemBlock>, h: nat)
    requires Extent(a, h) == Extent(b, h)
    ensures Extent(pre + a + post, h) == Extent(pre + b + post, h)
  {
    Extent3(pre, a, post, h);
    Extent3(pre, b, post, h);
  }

  /** Used at two spellings of the same offset. */
  lemma UsedAt(bs: seq<MemBlock>, b1: nat, b2: nat, h: nat)
    requires b1 == b2
    ensures Used(bs, b1, h) == Used(bs, b2, h)
  {
  }

  /** The handed-out block is in use, carries the magic and holds the
      request. */
  lemma AllocBlockHoldsRequest(bs: seq<MemBlock>, req: nat, h: nat)
    requires AllocSpec(bs, req, h).Ok?
    ensures var a := AllocSpec(bs, req, h).value;
      var i := FirstFit(bs, req).value;
      i < |a.blocks| && Offset(a.blocks, i, h) + h == a.ptr &&
      !a.blocks[i].free && a.blocks[i].magic == Magic && a.blocks[i].size >= req
  {
    var i := FirstFit(bs, req).value;
    var a := AllocSpec(bs, req, h).value;
    assert a.blocks[..i] == bs[..i];
  }

  /** Allocation keeps "no two free neighbours" and "magic on every block in
      use". */
  lemma AllocKeepsInvariants(bs: seq<MemBlock>, req: nat, h: nat)
    requires NoAdjacentFree(bs) && MagicOnUsed(bs)
    requires AllocSpec(bs, req, h).Ok?
    ensures NoAdjacentFree(AllocSpec(bs, req, h).value.blocks)
    ensures MagicOnUsed(AllocSpec(bs, req, h).value.blocks)
  {
    var i := FirstFit(bs, req).value;
    var t := Take(bs[i], req, h);
    var n := bs[..i] + t + bs[i + 1..];
    assert n == AllocSpec(bs, req, h).value.blocks;
    TakeShape(bs[i], req, h, 0);
    forall k | 0 < k < |n|
      ensures !(n[k - 1].free && n[k].free)
    {
      if k < i {
        assert n[k - 1] == bs[k - 1] && n[k] == bs[k];
      } else if k == i {
        assert n[k] == t[0];
      } else if k < i + |t| {
        assert n[k - 1] == t[0];
      } else if k == i + |t| {
        assert n[k] == bs[i + 1];
        assert bs[i].free;
      } else {
        assert n[k - 1] == bs[k - |t|] && n[k] == bs[k - |t| + 1];
      }
    }
    forall k | 0 <= k < |n| && !n[k].free
      ensures n[k].magic == Magic
    {
      if k < i {
        assert n[k] == bs[k];
      } else if k >= i + |t| {
        assert n[k] == bs[k - |t| + 1];
      }
    }
  }

  // ---------------------------------------------------------------------
  // Release

  /** The free run around block i that Release collapses: [lo, hi]. */
  function RunStart(bs: seq<MemBlock>, i: nat): nat
    requires i < |bs|
  {
    if i > 0 && bs[i - 1].free then i - 1 else i
  }

  function RunEnd(bs: seq<MemBlock>, i: nat): nat
    requires i < |bs|
  {
    if i + 1 < |bs| && bs[i + 1].free then i + 1 else i
  }

  /** Payload size of the block a release leaves: the released block plus
      the free neighbours it absorbs, headers included. */
  function RunSize(bs: seq<MemBlock>, i: nat, h: nat): nat
    requires i < |bs|
  {
    (if RunStart(bs, i) < i then bs[i - 1].size + h else 0) + bs[i].size
      + (if RunEnd(bs, i) > i then bs[i + 1].size + h else 0)
  }

  /** Release replaces the run [lo, hi] around block i by one free block
      spanning it; the run's first header (and its magic) survives. */
  lemma ReleaseShape(bs: seq<MemBlock>, i: nat, h: nat)
    requires i < |bs|
    ensures Release(bs, i, h)
         == bs[..RunStart(bs, i)] + [MemBlock(RunSize(bs, i, h), true, bs[RunStart(bs, i)].magic)]
          + bs[RunEnd(bs, i) + 1..]
  {
    if RunStart(bs, i) < i {
      ReleaseAfterFree(bs, i, h);
    } else if RunEnd(bs, i) > i {
      ReleaseBeforeFree(bs, i, h);
    } else {
      ReleaseAlone(bs, i, h);
    }
  }

  /** Release of a block with no free neighbour: it is only marked free. */
  lemma ReleaseAlone(bs: seq<MemBlock>, i: nat, h: nat)
    requires i < |bs| && RunStart(bs, i) == i == RunEnd(bs, i)
    ensures Release(bs, i, h)
         == bs[..RunStart(bs, i)] + [MemBlock(RunSize(bs, i, h), true, bs[RunStart(bs, i)].magic)]
          + bs[RunEnd(bs, i) + 1..]
  {
    var s := bs[i := bs[i].(free := true)];
    assert s == bs[..i] + [s[i]] + bs[i + 1..];
  }

  /** Release of a block whose predecessor is free. */
  lemma ReleaseAfterFree(bs: seq<MemBlock>, i: nat, h: nat)
    requires i < |bs| && RunStart(bs, i) < i
    ensures Release(bs, i, h)
         == bs[..RunStart(bs, i)] + [MemBlock(RunSize(bs, i, h), true, bs[RunStart(bs, i)].magic)]
          + bs[RunEnd(bs, i) + 1..]
  {
    var m := bs[i - 1].(size := bs[i - 1].size + bs[i].size + h);
    var pre, post := bs[..i - 1], bs[i + 1..];
    MergeIntoPrev(bs, i, h);
    var s1 := pre + [m] + post;
    assert |pre| == i - 1 && |s1| == |bs| - 1;
    if RunEnd(bs, i) > i {
      assert s1[i] == post[0] == bs[i + 1];
      assert post[1..] == bs[i + 2..];
      MergeAfter(pre, m, post, h);
    }
  }

  /** Freeing block i and merging it into block i-1. */
  lemma MergeIntoPrev(bs: seq<MemBlock>, i: nat, h: nat)
    requires 0 < i < |bs|
    ensures MergeNext(bs[i := bs[i].(free := true)], i - 1, h)
         == bs[..i - 1] + [bs[i - 1].(size := bs[i - 1].size + bs[i].size + h)] + bs[i + 1..]
  {
    var s := bs[i := bs[i].(free := true)];
    assert s[..i - 1] == bs[..i - 1] && s[i + 1..] == bs[i + 1..];
  }

  /** Merging the block after `m` into it. */
  lemma MergeAfter(pre: seq<MemBlock>, m: MemBlock, post: seq<MemBlock>, h: nat)
    requires |post| > 0
    ensures MergeNext(pre + [m] + post, |pre|, h) == pre + [m.(size := m.size + post[0].size + h)] + post[1..]
  {
    var s := pre + [m] + post;
    assert s[..|pre|] == pre && s[|pre| + 2..] == post[1..];
  }

  /** Release of a block whose predecessor is in use and successor free. */
  lemma ReleaseBeforeFree(bs: seq<MemBlock>, i: nat, h: nat)
    requires i < |bs| && RunStart(bs, i) == i < RunEnd(bs, i)
    ensures Release(bs, i, h)
         == bs[..RunStart(bs, i)] + [MemBlock(RunSize(bs, i, h), true, bs[RunStart(bs, i)].magic)]
          + bs[RunEnd(bs, i) + 1..]
  {
    var s := bs[i := bs[i].(free := true)];
    assert s[..i] == bs[..i] && s[i + 2..] == bs[i + 2..];
  }

  /** The merged block spans exactly the run it replaces. */
  lemma RunSpan(bs: seq<MemBlock>, i: nat, h: nat)
    requires i < |bs|
    ensures Extent(bs[RunStart(bs, i)..RunEnd(bs, i) + 1], h) == RunSize(bs, i, h) + h
  {
    RunExtent(bs, RunStart(bs, i), RunEnd(bs, i) + 1, h);
  }

  /** The extent of a short run, block by block. */
  lemma RunExtent(bs: seq<MemBlock>, lo: nat, end: nat, h: nat)
    requires lo < end <= |bs| && end - lo <= 3
    ensures Extent(bs[lo..end], h)
         == bs[lo].size + h + (if end - lo >= 2 then bs[lo + 1].size + h else 0)
          + (if end - lo == 3 then bs[lo + 2].size + h else 0)
  {
    var r := bs[lo..end];
    ExtentSingle(bs[lo], h);
    if end - lo == 1 {
      assert r == [bs[lo]];
    } else if end - lo == 2 {
      assert r == [bs[lo]] + [bs[lo + 1]];
      ExtentAppend([bs[lo]], [bs[lo + 1]], h);
      ExtentSingle(bs[lo + 1], h);
    } else {
      assert r == [bs[lo]] + [bs[lo + 1]] + [bs[lo + 2]];
      ExtentAppend([bs[lo]], [bs[lo + 1]], h);
      ExtentAppend([bs[lo]] + [bs[lo + 1]], [bs[lo + 2]], h);
      ExtentSingle(bs[lo + 1], h);
      ExtentSingle(bs[lo + 2], h);
    }
  }

  lemma {:induction false} UsedOfRun(bs: seq<MemBlock>, lo: nat, end: nat, i: nat, base: nat, h: nat)
    requires lo <= i < end <= |bs|
    requires forall k :: lo <= k < end && k != i ==> bs[k].free
    requires !bs[i].free
    ensures Used(bs[lo..end], base, h) == {base + Extent(bs[lo..i], h) + h}
    decreases end - lo
  {
    var r := bs[lo..end];
    var k := |r| - 1;
    assert r[..k] == bs[lo..end - 1];
    if end - 1 == i {
      UsedFree(bs[lo..end - 1], base, h);
    } else {
      UsedOfRun(bs, lo, end - 1, i, base, h);
    }
  }

  lemma {:induction false} UsedFree(bs: seq<MemBlock>, base: nat, h: nat)
    requires forall k :: 0 <= k < |bs| ==> bs[k].free
    ensures Used(bs, base, h) == {}
    decreases |bs|
  {
    if |bs| > 0 {
      UsedFree(bs[..|bs| - 1], base, h);
    }
  }

  /** Release keeps the tiling. */
  lemma ReleaseExtent(bs: seq<MemBlock>, i: nat, h: nat)
    requires i < |bs|
    ensures Extent(Release(bs, i, h), h) == Extent(bs, h)
  {
    var lo, hi := RunStart(bs, i), RunEnd(bs, i);
    var m := MemBlock(RunSize(bs, i, h), true, bs[lo].magic);
    ReleaseShape(bs, i, h);
    RunSpan(bs, i, h);
    Split3(bs, lo, hi + 1);
    ExtentSingle(m, h);
    SameExtentSwap(bs[..lo], bs[lo..hi + 1], [m], bs[hi + 1..], h);
  }

  /** Release removes exactly the released payload from the pointers in
      use. */
  lemma ReleaseUsed(bs: seq<MemBlock>, i: nat, h: nat)
    requires h > 0
    requires i < |bs| && !bs[i].free
    ensures Used(Release(bs, i, h), 0, h) == Used(bs, 0, h) - {Offset(bs, i, h) + h}
  {
    var lo, hi := RunStart(bs, i), RunEnd(bs, i);
    var m := MemBlock(RunSize(bs, i, h), true, bs[lo].magic);
    ReleaseCut(bs, i, h);
    ReleaseUsedSplit(bs, Release(bs, i, h), lo, hi, m, Extent(bs[lo..i], h), Offset(bs, i, h) + h, h);
  }

  /** Release cuts out the run around block i, whose one payload in use is
      block i's. */
  lemma ReleaseCut(bs: seq<MemBlock>, i: nat, h: nat)
    requires h > 0
    requires i < |bs| && !bs[i].free
    ensures RunCut(bs, Release(bs, i, h), RunStart(bs, i), RunEnd(bs, i),
                   MemBlock(RunSize(bs, i, h), true, bs[RunStart(bs, i)].magic),
                   Extent(bs[RunStart(bs, i)..i], h), Offset(bs, i, h) + h, h)
  {
    var lo, hi := RunStart(bs, i), RunEnd(bs, i);
    ReleaseShape(bs, i, h);
    RunSpan(bs, i, h);
    RunOffset(bs, lo, i, hi + 1, h);
    RunUsed(bs, i, h);
  }

  /** `rs` is `bs` with the run [lo, hi] replaced by the free block `m` of
      the same extent, and `p`, at `d` bytes into the run, is the run's only
      payload in use. */
  ghost predicate RunCut(bs: seq<MemBlock>, rs: seq<MemBlock>, lo: nat, hi: nat, m: MemBlock, d: nat, p: nat, h: nat)
  {
    lo <= hi < |bs| && rs == bs[..lo] + [m] + bs[hi + 1..] &&
    h > 0 && m.free && m.size + h == Extent(bs[lo..hi + 1], h) && d + h <= Extent(bs[lo..hi + 1], h) &&
    p == Extent(bs[..lo], h) + d + h &&
    Used(bs[lo..hi + 1], Extent(bs[..lo], h), h) == {p}
  }

  /** ReleaseUsed once the run [lo, hi] and its replacement are known. */
  lemma ReleaseUsedSplit(bs: seq<MemBlock>, rs: seq<MemBlock>, lo: nat, hi: nat, m: MemBlock, d: nat, p: nat, h: nat)
    requires RunCut(bs, rs, lo, hi, m, d, p, h)
    ensures Used(rs, 0, h) == Used(bs, 0, h) - {p}
  {
    Split3(bs, lo, hi + 1);
    SwapRun(bs[..lo], bs[lo..hi + 1], m, bs[hi + 1..], d, h);
  }

  /** The pointers in use of the run around block i: just its payload. */
  lemma RunUsed(bs: seq<MemBlock>, i: nat, h: nat)
    requires i < |bs| && !bs[i].free
    ensures Used(bs[RunStart(bs, i)..RunEnd(bs, i) + 1], Extent(bs[..RunStart(bs, i)], h), h)
         == {Extent(bs[..RunStart(bs, i)], h) + Extent(bs[RunStart(bs, i)..i], h) + h}
  {
    var lo, hi := RunStart(bs, i), RunEnd(bs, i);
    forall k | lo <= k < hi + 1 && k != i
      ensures bs[k].free
    {
    }
    UsedOfRun(bs, lo, hi + 1, i, Extent(bs[..lo], h), h);
  }

  /** A list is its prefix, a middle run and its suffix. */
  lemma Split3(bs: seq<MemBlock>, lo: nat, end: nat)
    requires lo <= end <= |bs|
    ensures bs == bs[..lo] + bs[lo..end] + bs[end..]
  {
    assert bs == bs[..lo] + bs[lo..end] + bs[end..];
  }

  /** Block i's header offset, measured from the start of a run that
      contains it, and its payload stays inside that run. */
  lemma RunOffset(bs: seq<MemBlock>, lo: nat, i: nat, end: nat, h: nat)
    requires lo <= i < end <= |bs|
    ensures Offset(bs, i, h) == Extent(bs[..lo], h) + Extent(bs[lo..i], h)
    ensures Extent(bs[lo..i], h) + h <= Extent(bs[lo..end], h)
  {
    assert bs[..i] == bs[..lo] + bs[lo..i];
    ExtentAppend(bs[..lo], bs[lo..i], h);
    assert bs[lo..end] == bs[lo..i] + [bs[i]] + bs[i + 1..end];
    ExtentAppend(bs[lo..i], [bs[i]], h);
    ExtentAppend(bs[lo..i] + [bs[i]], bs[i + 1..end], h);
    ExtentSingle(bs[i], h);
  }

  /** A run whose only block in use has payload at `pre`'s extent plus `d`
      replaced by one free block of the same extent. */
  lemma SwapRun(pre: seq<MemBlock>, run: seq<MemBlock>, m: MemBlock, post: seq<MemBlock>, d: nat, h: nat)
    requires h > 0 && m.free
    requires m.size + h == Extent(run, h)
    requires d + h <= Extent(run, h)
    requires Used(run, Extent(pre, h), h) == {Extent(pre, h) + d + h}
    ensures Used(pre + [m] + post, 0, h) == Used(pre + run + post, 0, h) - {Extent(pre, h) + d + h}
  {
    var o := Extent(pre, h);
    var p := o + d + h;
    var e := Extent(run, h);
    Outside(pre, post, e, p, h);
    AddThenRemove(Used(pre, 0, h), Used(post, o + e, h), p);
    ExtentSingle(m, h);
    UsedSingle(m, o, h);
    SwapUsed(pre, run, [m], post, h, {p}, {}, o, o + e);
  }

  lemma AddThenRemove(A: set<nat>, B: set<nat>, p: nat)
    requires p !in A && p !in B
    ensures A + {} + B == (A + {p} + B) - {p}
  {
  }

  /** Release leaves no two free neighbours, given there were none, and
      keeps the magic on every block still in use. */
  lemma ReleaseKeepsInvariants(bs: seq<MemBlock>, i: nat, h: nat)
    requires i < |bs| && NoAdjacentFree(bs) && MagicOnUsed(bs)
    ensures NoAdjacentFree(Release(bs, i, h))
    ensures MagicOnUsed(Release(bs, i, h))
  {
    var lo, hi := RunStart(bs, i), RunEnd(bs, i);
    var m := MemBlock(RunSize(bs, i, h), true, bs[lo].magic);
    assert NoAdjacentFree(Release(bs, i, h)) by {
      ReleaseShape(bs, i, h);
      if 0 < lo < i {
        assert bs[lo].free && !bs[lo - 1].free;
      }
      if i < hi < |bs| - 1 {
        assert bs[hi].free && !bs[hi + 1].free;
      }
      NoAdjacentAround(bs, lo, hi, m);
    }
    assert MagicOnUsed(Release(bs, i, h)) by {
      ReleaseShape(bs, i, h);
      MagicAround(bs, lo, hi, m);
    }
  }

  /** Collapsing a run into one free block between two blocks in use. */
  lemma NoAdjacentAround(bs: seq<MemBlock>, lo: nat, hi: nat, m: MemBlock)
    requires lo <= hi < |bs| && NoAdjacentFree(bs)
    requires lo > 0 ==> !bs[lo - 1].free
    requires hi + 1 < |bs| ==> !bs[hi + 1].free
    ensures NoAdjacentFree(bs[..lo] + [m] + bs[hi + 1..])
  {
    var n := bs[..lo] + [m] + bs[hi + 1..];
    forall k | 0 < k < |n|
      ensures !(n[k - 1].free && n[k].free)
    {
      if k < lo {
        assert n[k - 1] == bs[k - 1] && n[k] == bs[k];
      } else if k == lo {
        assert n[k - 1] == bs[lo - 1];
      } else if k == lo + 1 {
        assert n[k] == bs[hi + 1];
      } else {
        assert n[k - 1] == bs[k - 1 - lo + hi] && n[k] == bs[k - lo + hi];
      }
    }
  }

  lemma MagicAround(bs: seq<MemBlock>, lo: nat, hi: nat, m: MemBlock)
    requires lo <= hi < |bs| && MagicOnUsed(bs) && m.free
    ensures MagicOnUsed(bs[..lo] + [m] + bs[hi + 1..])
  {
    var n := bs[..lo] + [m] + bs[hi + 1..];
    forall k | 0 <= k < |n| && !n[k].free
      ensures n[k].magic == Magic
    {
      if k < lo {
        assert n[k] == bs[k];
      } else {
        assert n[k] == bs[k - lo + hi];
      }
    }
  }

  /** Freeing fails exactly on a pointer that is not a payload start, or
      whose block is free or lacks the magic; when the pointer is in use and
      the magic invariant holds, it succeeds. */
  lemma FreeErrors(bs: seq<MemBlock>, ptr: nat, h: nat)
    ensures FreeSpec(bs, ptr, h).Err? <==>
      Locate(bs, ptr, h).None? || bs[Locate(bs, ptr, h).value].free ||
      bs[Locate(bs, ptr, h).value].magic != Magic
    ensures Locate(bs, ptr, h).None? ==> FreeSpec(bs, ptr, h) == Err(InvalidPointer(ptr))
  {
  }

  /** A payload offset in use names exactly one block, which is in use. */
  lemma {:induction false} LocateUsed(bs: seq<MemBlock>, ptr: nat, h: nat)
    requires h > 0
    requires ptr in Used(bs, 0, h)
    ensures Locate(bs, ptr, h).Some?
    ensures !bs[Locate(bs, ptr, h).value].free
    decreases |bs|
  {
    var k := |bs| - 1;
    var pre := bs[..k];
    if ptr in Used(pre, 0, h) {
      LocateUsed(pre, ptr, h);
      var j := Locate(pre, ptr, h).value;
      assert pre[..j] == bs[..j];
      assert Offset(bs, j, h) + h == ptr;
      UniqueOffset(bs, j, Locate(bs, ptr, h).value, h);
    } else {
      assert Offset(bs, k, h) + h == ptr && !bs[k].free;
      UniqueOffset(bs, k, Locate(bs, ptr, h).value, h);
    }
  }

  /** Header offsets strictly increase along the list. */
  lemma UniqueOffset(bs: seq<MemBlock>, i: nat, j: nat, h: nat)
    requires h > 0 && i < |bs| && j < |bs|
    requires Offset(bs, i, h) == Offset(bs, j, h)
    ensures i == j
  {
    if i < j {
      OffsetGrows(bs, i, j, h);
    } else if j < i {
      OffsetGrows(bs, j, i, h);
    }
  }

  lemma OffsetGrows(bs: seq<MemBlock>, i: nat, j: nat, h: nat)
    requires i < j <= |bs|
    ensures Offset(bs, j, h) >= Offset(bs, i, h) + bs[i].size + h
  {
    assert bs[..j] == bs[..i] + [bs[i]] + bs[i + 1..j];
    ExtentAppend(bs[..i], [bs[i]], h);
    ExtentAppend(bs[..i] + [bs[i]], bs[i + 1..j], h);
    ExtentSingle(bs[i], h);
  }

  /** Freeing a pointer in use succeeds, keeps the tiling, and removes
      exactly that pointer from the pointers in use. */
  lemma FreeUsed(bs: seq<MemBlock>, ptr: nat, h: nat)
    requires h > 0 && MagicOnUsed(bs)
    requires ptr in Used(bs, 0, h)
    ensures FreeSpec(bs, ptr, h).Ok?
    ensures Extent(FreeSpec(bs, ptr, h).value, h) == Extent(bs, h)
    ensures Used(FreeSpec(bs, ptr, h).value, 0, h) == Used(bs, 0, h) - {ptr}
  {
    LocateUsed(bs, ptr, h);
    FreeReleases(bs, ptr, h, Locate(bs, ptr, h).value);
  }

  lemma FreeReleases(bs: seq<MemBlock>, ptr: nat, h: nat, i: nat)
    requires h > 0 && MagicOnUsed(bs)
    requires Locate(bs, ptr, h) == Some(i) && !bs[i].free
    ensures FreeSpec(bs, ptr, h) == Ok(Release(bs, i, h))
    ensures Extent(Release(bs, i, h), h) == Extent(bs, h)
    ensures Used(Release(bs, i, h), 0, h) == Used(bs, 0, h) - {ptr}
  {
    assert ptr == Offset(bs, i, h) + h;
    ReleaseExtent(bs, i, h);
    ReleaseUsed(bs, i, h);
  }

  /** Freeing what was just allocated succeeds and gives back the pointers
      in use before the allocation. */
  lemma AllocThenFree(bs: seq<MemBlock>, req: nat, h: nat)
    requires h > 0 && MagicOnUsed(bs) && NoAdjacentFree(bs)
    requires AllocSpec(bs, req, h).Ok?
    ensures var a := AllocSpec(bs, req, h).value;
      FreeSpec(a.blocks, a.ptr, h).Ok? &&
      Used(FreeSpec(a.blocks, a.ptr, h).value, 0, h) == Used(bs, 0, h)
  {
    var a := AllocSpec(bs, req, h).value;
    AllocUsed(bs, req, h);
    AllocKeepsInvariants(bs, req, h);
    FreeUsed(a.blocks, a.ptr, h);
  }

  // ---------------------------------------------------------------------
  // The pointer arithmetic as written

  /** sizeof(MemBlock) on an LP64 host: 4 + 1 (+3) + 8 + 8 + 4 (+4). */
  const HostHeader: nat := 32

  /** `b + sizeof(MemBlock)` on a MemBlock*: the payload AllocBlock returns
      lies h headers, not h bytes, past the header. */
  function AsWrittenPayload(header: nat, h: nat): nat
  {
    header + h * h
  }

  /** `b + size + sizeof(MemBlock)` on a MemBlock*: where AllocBlock puts
      the remainder's header. */
  function AsWrittenRemainder(header: nat, req: nat, h: nat): nat
  {
    header + (req + h) * h
  }

  /** `ptr - sizeof(MemBlock)` on a void*: where FreeBlock looks for the
      header, in bytes. */
  function AsWrittenHeaderOf(ptr: nat, h: nat): nat
    requires ptr >= h
  {
    ptr - h
  }

  /** As written, FreeBlock does not find the header AllocBlock wrote: for a
      32-byte header it looks 992 bytes past it, in the zero-filled gap
      before the payload, and the free/magic check then fails. The
      remainder header of a split also lands beyond the block it was cut
      from (block of 2000 bytes, request 100: header at 4224, block end at
      2032). */
  lemma AsWrittenHeaderMissed(header: nat)
    ensures AsWrittenHeaderOf(AsWrittenPayload(header, HostHeader), HostHeader) == header + 992
    ensures AsWrittenRemainder(header, 100, HostHeader) > header + 2000 + HostHeader
  {
  }

  /** Taking a block whole as written: `b->size = size` also when the
      block is larger than the request. */
  function AsWrittenTake(b: MemBlock, req: nat, h: nat): seq<MemBlock>
    requires Fits(b, req)
  {
    if b.size >= req + h + 4 then [MemBlock(req, false, Magic), MemBlock(b.size - req - h, true, 0)]
    else [MemBlock(req, false, Magic)]
  }

  /** As written, the unsplit remainder drops out of the tiling: a free
      block of 100 bytes taken for 90 with a 32-byte header shrinks the
      list's extent by 10, and no later free gives the bytes back. The
      corrected Take keeps the extent. */
  lemma AsWrittenTakeLeaks()
    ensures var b := MemBlock(100, true, 0);
      Extent(AsWrittenTake(b, 90, HostHeader), HostHeader) + 10 == Extent([b], HostHeader) &&
      Extent(Take(b, 90, HostHeader), HostHeader) == Extent([b], HostHeader)
  {
    var b := MemBlock(100, true, 0);
    ExtentSingle(b, HostHeader);
    ExtentSingle(MemBlock(90, false, Magic), HostHeader);
    ExtentSingle(MemBlock(100, false, Magic), HostHeader);
  }
}
