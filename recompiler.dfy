/** CPURecompiler: the executable-memory list, the block cache and the
    block being gathered (cur_size / cur_instrs). The specification
    functions state what each public step does to the whole recompiler
    state; the class below performs the same steps in place and is proved
    against them. */
module Recompiler {
  import opened Failure
  import opened Opcode
  import opened MemBlocks
  import opened BlockCache

  /** Bytes mapped for generated code (the mmap length). */
  const Region: nat := 0xFFFF_FFFF

  /** The recompiler's state as a value: the block list, blockCache,
      cur_size and cur_instrs. */
  datatype Recomp = Recomp(blocks: seq<MemBlock>, cache: seq<CodeBlock>, curSize: nat, curInstrs: seq<Word>)

  /** The constructor: one free block spanning the region after its header,
      cur_size = 25, nothing cached or pending. */
  function Initial(h: nat): Recomp
    requires h <= Region
  {
    Recomp([MemBlock(Region - h, true, 0)], [], BlockOverhead, [])
  }

  predicate AllSupported(ws: seq<Word>)
  {
    forall w | w in ws :: Supported(w)
  }

  predicate CodeSupported(cache: seq<CodeBlock>)
  {
    forall k :: 0 <= k < |cache| ==> AllSupported(cache[k].code)
  }

  /** The block list tiles the region, is coalesced and marked. */
  ghost predicate ListOk(bs: seq<MemBlock>, h: nat)
  {
    h > 0 && Extent(bs, h) == Region && NoAdjacentFree(bs) && MagicOnUsed(bs)
  }

  /** Every allocation in use belongs to exactly one cached block, keys are
      distinct, and every block was compiled from supported words. */
  ghost predicate CacheOk(cache: seq<CodeBlock>, bs: seq<MemBlock>, h: nat)
  {
    Distinct(cache) && Starts(cache) == Used(bs, 0, h) && CodeSupported(cache)
  }

  /** cur_size is the estimate of the pending words. */
  predicate PendingOk(curSize: nat, curInstrs: seq<Word>)
  {
    AllSupported(curInstrs) && curSize == BlockOverhead + Estimate(curInstrs)
  }

  ghost predicate Settled(st: Recomp, h: nat)
  {
    ListOk(st.blocks, h) && CacheOk(st.cache, st.blocks, h) && PendingOk(st.curSize, st.curInstrs)
  }

  /** What holds between public calls: the above, and at most 32 blocks
      cached. */
  ghost predicate Inv(st: Recomp, h: nat)
  {
    Settled(st, h) && |st.cache| <= Capacity
  }

  /** EmitInstruction: an unsupported word is fatal; otherwise reserve its
      bytes, append it, and say whether the block goes on. */
  function EmitSpec(st: Recomp, w: Word): Result<(Recomp, bool)>
  {
    if !Supported(w) then Err(Undecodable(w))
    else Ok((st.(curSize := st.curSize + InstrSize(w), curInstrs := st.curInstrs + [w]), !ModifiesPC(w)))
  }

  /** CheckCacheFull: with 32 or more blocks cached, free the least used
      one's allocation and erase it. */
  function Evict(st: Recomp, h: nat): Result<Recomp>
  {
    if |st.cache| < Capacity then Ok(st)
    else
      var i := LeastUsed(st.cache);
      var bs :- FreeSpec(st.blocks, st.cache[i].start, h);
      Ok(st.(blocks := bs, cache := Remove(st.cache, i)))
  }

  /** The part of CompileBlock after eviction: look pc up; a hit counts
      and returns the cached block, a miss allocates cur_size bytes, caches
      a new block compiled from cur_instrs and resets the pending block. */
  function Install(st1: Recomp, pc: Word, h: nat): Result<(Recomp, CodeBlock)>
  {
    match Lookup(st1.cache, pc)
    case Some(i) =>
      var cache := Hit(st1.cache, i);
      Ok((st1.(cache := cache), cache[i]))
    case None =>
      var a :- AllocSpec(st1.blocks, st1.curSize, h);
      var b := NewBlock(a.ptr, pc, st1.curInstrs);
      Ok((Recomp(a.blocks, st1.cache + [b], BlockOverhead, []), b))
  }

  /** CompileBlock for the guest pc: evict first, then install. */
  function CompileSpec(st: Recomp, pc: Word, h: nat): Result<(Recomp, CodeBlock)>
  {
    var st1 :- Evict(st, h);
    Install(st1, pc, h)
  }

  // ---------------------------------------------------------------------
  // Properties of the specification

  lemma EstimateAppend(ws: seq<Word>, w: Word)
    requires AllSupported(ws) && Supported(w)
    ensures AllSupported(ws + [w])
    ensures Estimate(ws + [w]) == Estimate(ws) + InstrSize(w)
  {
    assert (ws + [w])[..|ws|] == ws;
  }

  /** The constructor establishes the invariant. */
  lemma InitialInv(h: nat)
    requires 0 < h <= Region
    ensures Inv(Initial(h), h)
  {
    var b := MemBlock(Region - h, true, 0);
    ExtentSingle(b, h);
    UsedSingle(b, 0, h);
  }

  /** EmitInstruction keeps the invariant: cur_size stays the estimate of
      the pending words. It fails exactly on an unsupported word and asks
      for more exactly when the word is not a control transfer. */
  lemma EmitInv(st: Recomp, w: Word, h: nat)
    requires Inv(st, h)
    ensures EmitSpec(st, w).Err? <==> !Supported(w)
    ensures EmitSpec(st, w).Ok? ==> Inv(EmitSpec(st, w).value.0, h)
    ensures EmitSpec(st, w).Ok? ==>
      (EmitSpec(st, w).value.1 <==> !IsControlTransfer(Classify(w).value))
  {
    if Supported(w) {
      EstimateAppend(st.curInstrs, w);
      ModifiesPCExactlyControlTransfer(w);
    }
  }

  /** Releasing a block the cache owns keeps the list's invariants. */
  lemma FreeKeepsInvariants(bs: seq<MemBlock>, ptr: nat, h: nat)
    requires NoAdjacentFree(bs) && MagicOnUsed(bs)
    requires FreeSpec(bs, ptr, h).Ok?
    ensures NoAdjacentFree(FreeSpec(bs, ptr, h).value)
    ensures MagicOnUsed(FreeSpec(bs, ptr, h).value)
  {
    ReleaseKeepsInvariants(bs, Locate(bs, ptr, h).value, h);
  }

  /** Under the invariant the free inside eviction succeeds, so eviction is
      exactly: release the least-used entry's allocation and erase it. */
  lemma EvictUnfold(st: Recomp, h: nat)
    requires Inv(st, h)
    ensures Evict(st, h).Ok?
    ensures |st.cache| < Capacity ==> Evict(st, h).value == st
    ensures |st.cache| >= Capacity ==>
      var p := st.cache[LeastUsed(st.cache)].start;
      FreeSpec(st.blocks, p, h).Ok? &&
      Evict(st, h).value == st.(blocks := FreeSpec(st.blocks, p, h).value,
                                cache := Remove(st.cache, LeastUsed(st.cache)))
  {
    if |st.cache| >= Capacity {
      var p := st.cache[LeastUsed(st.cache)].start;
      assert p in Starts(st.cache);
      FreeUsed(st.blocks, p, h);
    }
  }

  /** The list side of a full-cache eviction. */
  lemma EvictList(bs: seq<MemBlock>, p: nat, h: nat)
    requires ListOk(bs, h) && p in Used(bs, 0, h)
    ensures FreeSpec(bs, p, h).Ok?
    ensures ListOk(FreeSpec(bs, p, h).value, h)
    ensures Used(FreeSpec(bs, p, h).value, 0, h) == Used(bs, 0, h) - {p}
  {
    FreeUsed(bs, p, h);
    FreeKeepsInvariants(bs, p, h);
  }

  /** The cache side of a full-cache eviction. */
  lemma EvictCache(cache: seq<CodeBlock>, i: nat, bs: seq<MemBlock>, bs': seq<MemBlock>, h: nat)
    requires i < |cache| && CacheOk(cache, bs, h)
    requires Used(bs', 0, h) == Used(bs, 0, h) - {cache[i].start}
    ensures CacheOk(Remove(cache, i), bs', h)
  {
    RemoveDistinct(cache, i);
    var r := Remove(cache, i);
    forall k | 0 <= k < |r|
      ensures AllSupported(r[k].code)
    {
      if k < i { assert r[k] == cache[k]; } else { assert r[k] == cache[k + 1]; }
    }
  }

  /** Under the invariant eviction never fails: it removes exactly the
      first least-used entry, gives back exactly its allocation, and leaves
      room for one more block. */
  lemma EvictSucceeds(st: Recomp, h: nat)
    requires Inv(st, h)
    ensures Evict(st, h).Ok?
    ensures Settled(Evict(st, h).value, h) && |Evict(st, h).value.cache| < Capacity
    ensures Evict(st, h).value.curSize == st.curSize && Evict(st, h).value.curInstrs == st.curInstrs
    ensures |st.cache| >= Capacity ==>
      Evict(st, h).value.cache == Remove(st.cache, LeastUsed(st.cache))
    ensures |st.cache| < Capacity ==> Evict(st, h).value == st
  {
    EvictUnfold(st, h);
    if |st.cache| >= Capacity {
      var i := LeastUsed(st.cache);
      var p := st.cache[i].start;
      assert p in Starts(st.cache);
      EvictList(st.blocks, p, h);
      EvictCache(st.cache, i, st.blocks, FreeSpec(st.blocks, p, h).value, h);
    }
  }

  /** Counting a hit keeps the cache's invariant. */
  lemma HitCacheOk(cache: seq<CodeBlock>, i: nat, bs: seq<MemBlock>, h: nat)
    requires i < |cache| && CacheOk(cache, bs, h)
    ensures CacheOk(Hit(cache, i), bs, h)
  {
    HitDistinct(cache, i);
    var c := Hit(cache, i);
    forall k | 0 <= k < |c|
      ensures AllSupported(c[k].code)
    {
      assert c[k].code == cache[k].code;
    }
  }

  /** Caching a freshly allocated block keeps everything settled. */
  lemma MissSettled(st1: Recomp, pc: Word, h: nat)
    requires Settled(st1, h) && Lookup(st1.cache, pc).None?
    requires AllocSpec(st1.blocks, st1.curSize, h).Ok?
    ensures var a := AllocSpec(st1.blocks, st1.curSize, h).value;
      Settled(Recomp(a.blocks, st1.cache + [NewBlock(a.ptr, pc, st1.curInstrs)], BlockOverhead, []), h)
  {
    var a := AllocSpec(st1.blocks, st1.curSize, h).value;
    AllocUsed(st1.blocks, st1.curSize, h);
    AllocExtent(st1.blocks, st1.curSize, h);
    AllocKeepsInvariants(st1.blocks, st1.curSize, h);
    var b := NewBlock(a.ptr, pc, st1.curInstrs);
    AppendDistinct(st1.cache, b);
    var c := st1.cache + [b];
    forall k | 0 <= k < |c|
      ensures AllSupported(c[k].code)
    {
      if k < |st1.cache| { assert c[k] == st1.cache[k]; }
    }
  }

  /** CompileBlock keeps the invariant. */
  lemma CompileInv(st: Recomp, pc: Word, h: nat)
    requires Inv(st, h)
    requires CompileSpec(st, pc, h).Ok?
    ensures Inv(CompileSpec(st, pc, h).value.0, h)
  {
    EvictSucceeds(st, h);
    var st1 := Evict(st, h).value;
    match Lookup(st1.cache, pc)
    case Some(i) =>
      HitCacheOk(st1.cache, i, st1.blocks, h);
    case None =>
      MissSettled(st1, pc, h);
  }

  /** Under the invariant CompileBlock is eviction followed by install,
      and eviction cannot fail. */
  lemma CompileAfterEvict(st: Recomp, pc: Word, h: nat)
    requires Inv(st, h)
    ensures Evict(st, h).Ok?
    ensures CompileSpec(st, pc, h) == Install(Evict(st, h).value, pc, h)
  {
    EvictUnfold(st, h);
  }

  /** After install the block for pc is cached, and it is the one returned;
      the only failure is running out of executable memory. */
  lemma InstallCaches(st1: Recomp, pc: Word, h: nat)
    ensures Install(st1, pc, h).Err? ==> Install(st1, pc, h).error == OutOfMemory(st1.curSize)
    ensures Install(st1, pc, h).Ok? ==>
      var (st2, b) := Install(st1, pc, h).value;
      b.guestAddr == pc &&
      Lookup(st2.cache, pc).Some? && st2.cache[Lookup(st2.cache, pc).value] == b
  {
    if Lookup(st1.cache, pc).None? {
      AllocFirstFit(st1.blocks, st1.curSize, h);
      if Install(st1, pc, h).Ok? {
        var st2 := Install(st1, pc, h).value.0;
        assert st2.cache[|st1.cache|].guestAddr == pc;
      }
    }
  }

  /** A miss caches one new block, used once, compiled from the pending
      words, and starts a fresh pending block. */
  lemma InstallMiss(st1: Recomp, pc: Word, h: nat)
    requires Lookup(st1.cache, pc).None?
    requires Install(st1, pc, h).Ok?
    ensures var (st2, b) := Install(st1, pc, h).value;
      st2.cache == st1.cache + [b] &&
      b.hits == 1 && b.code == st1.curInstrs &&
      st2.curSize == BlockOverhead && st2.curInstrs == []
  {
  }

  /** A hit only counts: the pending words and their size estimate survive
      into the next block, and the list is left alone. */
  lemma InstallHit(st1: Recomp, pc: Word, h: nat)
    requires Lookup(st1.cache, pc).Some?
    ensures Install(st1, pc, h).Ok?
    ensures var (st2, b) := Install(st1, pc, h).value;
      var i := Lookup(st1.cache, pc).value;
      st2.blocks == st1.blocks &&
      st2.curInstrs == st1.curInstrs && st2.curSize == st1.curSize &&
      |st2.cache| == |st1.cache| && b == st1.cache[i].(hits := st1.cache[i].hits + 1)
  {
  }

  /** Eviction runs before the lookup: when the cache is full and the
      least-used entry is the one keyed by pc, that entry is dropped and the
      block is compiled again as a miss, from whatever words are pending. */
  lemma EvictionBeforeLookup(st: Recomp, pc: Word, h: nat)
    requires Inv(st, h)
    requires |st.cache| >= Capacity && st.cache[LeastUsed(st.cache)].guestAddr == pc
    requires CompileSpec(st, pc, h).Ok?
    ensures var (st2, b) := CompileSpec(st, pc, h).value;
      b.hits == 1 && b.code == st.curInstrs && st2.curInstrs == []
  {
    EvictSucceeds(st, h);
    RemoveDistinct(st.cache, LeastUsed(st.cache));
  }

  // ---------------------------------------------------------------------
  // The recompiler object

  class CPURecompiler {
    var blocks: seq<MemBlock>
    var blockCache: seq<CodeBlock>
    var curSize: nat
    var curInstrs: seq<Word>
    /** sizeof(MemBlock). */
    const H: nat

    function State(): Recomp
      reads this
    {
      Recomp(blocks, blockCache, curSize, curInstrs)
    }

    ghost predicate Valid()
      reads this
    {
      Inv(State(), H)
    }

    constructor(h: nat)
      requires 0 < h <= Region
      ensures H == h && State() == Initial(h) && Valid()
    {
      H := h;
      blocks := [MemBlock(Region - h, true, 0)];
      blockCache := [];
      curSize := 25;
      curInstrs := [];
      new;
      InitialInv(h);
    }

    /** AllocBlock: walk the list for the first fit, split or take it, and
        return its payload offset. */
    method AllocBlock(size: nat) returns (r: Result<nat>)
      modifies this
      ensures match AllocSpec(old(blocks), size, H)
        case Ok(a) => r == Ok(a.ptr) && blocks == a.blocks
        case Err(e) => r == Err(e) && blocks == old(blocks)
      ensures blockCache == old(blockCache) && curSize == old(curSize) && curInstrs == old(curInstrs)
    {
      var bs := blocks;
      var i := 0;
      var offset := 0;
      while i < |bs|
        invariant 0 <= i <= |bs|
        invariant unchanged(this)
        invariant offset == Offset(bs, i, H)
        invariant forall k :: 0 <= k < i ==> !Fits(bs[k], size)
      {
        var b := bs[i];
        if b.free && b.size >= size {
          FirstFitAt(bs, size, i);
          if b.size >= size + H + 4 {
            blocks := bs[..i] + [MemBlock(size, false, Magic), MemBlock(b.size - size - H, true, 0)] + bs[i + 1..];
          } else {
            blocks := bs[..i] + [MemBlock(b.size, false, Magic)] + bs[i + 1..];
          }
          return Ok(offset + H);
        }
        OffsetStep(bs, i, H);
        offset := offset + b.size + H;
        i := i + 1;
      }
      return Err(OutOfMemory(size));
    }

    /** FreeBlock: find the header in front of ptr, reject a free or
        unmarked block, mark it free, merge into a free predecessor, then
        absorb a free successor. */
    method FreeBlock(ptr: nat) returns (r: Outcome)
      modifies this
      ensures match FreeSpec(old(blocks), ptr, H)
        case Ok(bs) => r == Pass && blocks == bs
        case Err(e) => r == Fail(e) && blocks == old(blocks)
      ensures blockCache == old(blockCache) && curSize == old(curSize) && curInstrs == old(curInstrs)
    {
      var i := 0;
      var offset := 0;
      while i < |blocks| && offset + H != ptr
        invariant 0 <= i <= |blocks|
        invariant offset == Offset(blocks, i, H)
        invariant forall k :: 0 <= k < i ==> Offset(blocks, k, H) + H != ptr
      {
        assert blocks[..i + 1][..i] == blocks[..i];
        offset := offset + blocks[i].size + H;
        i := i + 1;
      }
      if i == |blocks| {
        return Fail(InvalidPointer(ptr));
      }
      LocateFirst(blocks, ptr, H, i);
      var b := blocks[i];
      if b.free || b.magic != Magic {
        return Fail(DoubleFree(ptr));
      }
      ghost var released := Release(blocks, i, H);
      blocks := blocks[i := b.(free := true)];
      if i > 0 && blocks[i - 1].free {
        blocks := MergeNext(blocks, i - 1, H);
        i := i - 1;
      }
      if i + 1 < |blocks| && blocks[i + 1].free {
        blocks := MergeNext(blocks, i, H);
      }
      assert blocks == released;
      return Pass;
    }

    /** The scan of CheckCacheFull: the first entry with the fewest hits.
        The INT32_MAX sentinel is an unset candidate here. */
    method LeastUsedIndex() returns (least: nat)
      requires |blockCache| > 0
      ensures least == LeastUsed(blockCache)
    {
      var found := false;
      var amount := 0;
      least := 0;
      var i := 0;
      while i < |blockCache|
        invariant 0 <= i <= |blockCache|
        invariant found <==> i > 0
        invariant found ==> least == LeastUsed(blockCache[..i]) && amount == blockCache[least].hits
      {
        assert blockCache[..i + 1][..i] == blockCache[..i];
        if !found || blockCache[i].hits < amount {
          amount := blockCache[i].hits;
          least := i;
        }
        found := true;
        i := i + 1;
      }
      assert blockCache[..i] == blockCache;
    }

    /** CheckCacheFull. Under the invariant the free always succeeds. */
    method CheckCacheFull() returns (r: Outcome)
      requires Valid()
      modifies this
      ensures r == Pass && Evict(old(State()), H) == Ok(State())
    {
      EvictUnfold(State(), H);
      if |blockCache| >= 32 {
        var least := LeastUsedIndex();
        r := FreeBlock(blockCache[least].start);
        if r.Fail? {
          return;
        }
        blockCache := blockCache[..least] + blockCache[least + 1..];
      }
      return Pass;
    }

    /** EmitInstruction: reserve 30 bytes for the pc advance, 15 for the
        load-delay call and the opcode's own share, append the word, and
        return whether the block goes on. */
    method EmitInstruction(opcode: Word) returns (r: Result<bool>)
      requires Valid()
      modifies this
      ensures match EmitSpec(old(State()), opcode)
        case Ok((st, more)) => r == Ok(more) && State() == st && Valid()
        case Err(e) => r == Err(e)
    {
      EmitInv(State(), opcode, H);
      curSize := curSize + 30;
      curSize := curSize + 15;
      match Classify(opcode)
      case None =>
        return Err(Undecodable(opcode));
      case Some(op) =>
        curSize := curSize + OpSize(op);
      curInstrs := curInstrs + [opcode];
      return Ok(!ModifiesPC(opcode));
    }

    /** The lookup loop of CompileBlock: the first cached block for pc. */
    method FindBlock(pc: Word) returns (r: Option<nat>)
      ensures r == Lookup(blockCache, pc)
    {
      var i := 0;
      while i < |blockCache|
        invariant 0 <= i <= |blockCache|
        invariant forall k :: 0 <= k < i ==> blockCache[k].guestAddr != pc
      {
        if blockCache[i].guestAddr == pc {
          return Some(i);
        }
        i := i + 1;
      }
      return None;
    }

    /** CompileBlock for the guest pc (g_state.pc): evict, look up, and on a
        miss allocate, cache a new block over the pending words and reset
        them. */
    method CompileBlock(pc: Word) returns (r: Result<CodeBlock>)
      requires Valid()
      modifies this
      ensures match CompileSpec(old(State()), pc, H)
        case Ok((st, b)) => r == Ok(b) && State() == st && Valid()
        case Err(e) => r == Err(e)
    {
      ghost var st0 := State();
      var c := CheckCacheFull();
      ghost var st1 := State();
      CompileAfterEvict(st0, pc, H);
      var found := FindBlock(pc);
      if found.Some? {
        var i := found.value;
        CompileHit(st0, pc, H, i);
        blockCache := Hit(blockCache, i);
        return Ok(blockCache[i]);
      }
      CompileMiss(st0, pc, H);
      var a := AllocBlock(curSize);
      if a.Err? {
        return Err(a.error);
      }
      ghost var al := AllocSpec(st1.blocks, st1.curSize, H).value;
      assert a.value == al.ptr && blocks == al.blocks && blockCache == st1.cache && curInstrs == st1.curInstrs;
      var block := NewBlock(a.value, pc, curInstrs);
      blockCache := blockCache + [block];
      curSize := 25;
      curInstrs := [];
      return Ok(block);
    }
  }

  /** CompileBlock on a hit at entry i of the cache left by eviction. */
  lemma CompileHit(st: Recomp, pc: Word, h: nat, i: nat)
    requires Inv(st, h) && Evict(st, h).Ok? && Lookup(Evict(st, h).value.cache, pc) == Some(i)
    ensures var st1 := Evict(st, h).value;
      var cache := Hit(st1.cache, i);
      CompileSpec(st, pc, h) == Ok((st1.(cache := cache), cache[i])) && Inv(st1.(cache := cache), h)
  {
    var st1 := Evict(st, h).value;
    assert CompileSpec(st, pc, h) == Install(st1, pc, h) by {
      CompileAfterEvict(st, pc, h);
    }
    assert Inv(st1.(cache := Hit(st1.cache, i)), h) by {
      EvictSucceeds(st, h);
      HitCacheOk(st1.cache, i, st1.blocks, h);
    }
  }

  /** CompileBlock on a miss: allocation decides the outcome. */
  lemma CompileMiss(st: Recomp, pc: Word, h: nat)
    requires Inv(st, h) && Evict(st, h).Ok?
    requires forall k :: 0 <= k < |Evict(st, h).value.cache| ==> Evict(st, h).value.cache[k].guestAddr != pc
    ensures var st1 := Evict(st, h).value;
      match AllocSpec(st1.blocks, st1.curSize, h)
      case Err(e) => CompileSpec(st, pc, h) == Err(e)
      case Ok(a) =>
        var b := NewBlock(a.ptr, pc, st1.curInstrs);
        CompileSpec(st, pc, h) == Ok((Recomp(a.blocks, st1.cache + [b], BlockOverhead, []), b)) &&
        Inv(Recomp(a.blocks, st1.cache + [b], BlockOverhead, []), h)
  {
    var st1 := Evict(st, h).value;
    assert Lookup(st1.cache, pc).None?;
    assert CompileSpec(st, pc, h) == Install(st1, pc, h) by {
      CompileAfterEvict(st, pc, h);
    }
    if AllocSpec(st1.blocks, st1.curSize, h).Ok? {
      var a := AllocSpec(st1.blocks, st1.curSize, h).value;
      assert Inv(Recomp(a.blocks, st1.cache + [NewBlock(a.ptr, pc, st1.curInstrs)], BlockOverhead, []), h) by {
        EvictSucceeds(st, h);
        MissSettled(st1, pc, h);
      }
    }
  }

  /** FirstFit finds the first free block large enough. */
  lemma FirstFitAt(bs: seq<MemBlock>, req: nat, i: nat)
    requires i < |bs| && Fits(bs[i], req)
    requires forall k :: 0 <= k < i ==> !Fits(bs[k], req)
    ensures FirstFit(bs, req) == Some(i)
  {
  }

  /** The header offset of the next block lies one block and header on. */
  lemma OffsetStep(bs: seq<MemBlock>, i: nat, h: nat)
    requires i < |bs|
    ensures Offset(bs, i + 1, h) == Offset(bs, i, h) + bs[i].size + h
  {
    assert bs[..i + 1][..i] == bs[..i];
  }

  /** Locate finds the first header in front of ptr. */
  lemma LocateFirst(bs: seq<MemBlock>, ptr: nat, h: nat, i: nat)
    requires i < |bs| && Offset(bs, i, h) + h == ptr
    requires forall k :: 0 <= k < i ==> Offset(bs, k, h) + h != ptr
    ensures Locate(bs, ptr, h) == Some(i)
  {
    var r := Locate(bs, ptr, h);
    if r.Some? && r.value > i {
      LocateFromFinds(bs, ptr, h, 0, i);
    }
  }

  lemma {:induction false} LocateFromFinds(bs: seq<MemBlock>, ptr: nat, h: nat, j: nat, i: nat)
    requires j <= i < |bs| && Offset(bs, i, h) + h == ptr
    requires forall k :: 0 <= k < i ==> Offset(bs, k, h) + h != ptr
    ensures LocateFrom(bs, ptr, h, j) == Some(i)
    decreases i - j
  {
    if j < i {
      LocateFromFinds(bs, ptr, h, j + 1, i);
    }
  }
}
