/** The compiled-block cache of CPURecompiler: a vector of CodeBlock records
    keyed by the guest address they were compiled from, evicted least used
    first when 32 are held. */
module BlockCache {
  import opened Opcode

  /** A compiled block. `start` is the allocation the code lives in; the
      source keeps it twice (Start and entry) and both always hold the same
      pointer, so the model keeps it once. `code` is the guest words the
      block was compiled from, which is what calling the entry runs. */
  datatype CodeBlock = CodeBlock(start: nat, guestAddr: Word, hits: nat, code: seq<Word>)

  /** At least this many entries trigger an eviction. */
  const Capacity: nat := 32

  /** A new block has been used once (the default member initializer). */
  function NewBlock(start: nat, guestAddr: Word, code: seq<Word>): (b: CodeBlock)
    ensures b.hits == 1 && b.start == start && b.guestAddr == guestAddr && b.code == code
  {
    CodeBlock(start, guestAddr, 1, code)
  }

  /** The index CheckCacheFull picks: the first entry whose hit count is the
      least (the scan only replaces its candidate on a strictly smaller
      count). */
  function LeastUsed(cache: seq<CodeBlock>): (r: nat)
    requires |cache| > 0
    ensures r < |cache|
    ensures forall k :: 0 <= k < |cache| ==> cache[r].hits <= cache[k].hits
    ensures forall k :: 0 <= k < r ==> cache[k].hits > cache[r].hits
  {
    if |cache| == 1 then 0
    else
      var j := LeastUsed(cache[..|cache| - 1]);
      if cache[|cache| - 1].hits < cache[j].hits then |cache| - 1 else j
  }

  /** vector::erase at i: the other entries keep their order. */
  function Remove(cache: seq<CodeBlock>, i: nat): (r: seq<CodeBlock>)
    requires i < |cache|
    ensures |r| == |cache| - 1
    ensures forall k :: 0 <= k < i ==> r[k] == cache[k]
    ensures forall k :: i <= k < |r| ==> r[k] == cache[k + 1]
  {
    cache[..i] + cache[i + 1..]
  }

  /** The lookup loop of CompileBlock: the first entry keyed by `pc`. */
  function Lookup(cache: seq<CodeBlock>, pc: Word): (r: Option<nat>)
    ensures r.Some? ==> r.value < |cache| && cache[r.value].guestAddr == pc
    ensures r.Some? ==> forall k :: 0 <= k < r.value ==> cache[k].guestAddr != pc
    ensures r.None? ==> forall k :: 0 <= k < |cache| ==> cache[k].guestAddr != pc
  {
    LookupFrom(cache, pc, 0)
  }

  function LookupFrom(cache: seq<CodeBlock>, pc: Word, i: nat): (r: Option<nat>)
    requires i <= |cache|
    requires forall k :: 0 <= k < i ==> cache[k].guestAddr != pc
    ensures r.Some? ==> r.value < |cache| && cache[r.value].guestAddr == pc
    ensures r.Some? ==> forall k :: 0 <= k < r.value ==> cache[k].guestAddr != pc
    ensures r.None? ==> forall k :: 0 <= k < |cache| ==> cache[k].guestAddr != pc
    decreases |cache| - i
  {
    if i == |cache| then None
    else if cache[i].guestAddr == pc then Some(i)
    else LookupFrom(cache, pc, i + 1)
  }

  /** `b->hits++` on entry i. */
  function Hit(cache: seq<CodeBlock>, i: nat): (r: seq<CodeBlock>)
    requires i < |cache|
    ensures |r| == |cache| && r[i].hits == cache[i].hits + 1
    ensures r[i] == cache[i].(hits := r[i].hits)
    ensures forall k :: 0 <= k < |cache| && k != i ==> r[k] == cache[k]
  {
    cache[i := cache[i].(hits := cache[i].hits + 1)]
  }

  /** No two entries share a guest address, nor an allocation. */
  predicate Distinct(cache: seq<CodeBlock>)
  {
    forall i, j :: 0 <= i < j < |cache| ==>
      cache[i].guestAddr != cache[j].guestAddr && cache[i].start != cache[j].start
  }

  /** The allocations the cache holds. */
  function Starts(cache: seq<CodeBlock>): (r: set<nat>)
    ensures forall k :: 0 <= k < |cache| ==> cache[k].start in r
    ensures forall p :: p in r ==> exists k :: 0 <= k < |cache| && cache[k].start == p
  {
    set k | 0 <= k < |cache| :: cache[k].start
  }

  /** Removing an entry of a cache without duplicates gives up exactly its
      allocation and its key. */
  lemma RemoveDistinct(cache: seq<CodeBlock>, i: nat)
    requires i < |cache| && Distinct(cache)
    ensures Distinct(Remove(cache, i))
    ensures Starts(Remove(cache, i)) == Starts(cache) - {cache[i].start}
    ensures Lookup(Remove(cache, i), cache[i].guestAddr).None?
  {
    RemoveKeepsStarts(cache, i);
    RemoveDropsKey(cache, i);
  }

  lemma RemoveDropsKey(cache: seq<CodeBlock>, i: nat)
    requires i < |cache| && Distinct(cache)
    ensures Lookup(Remove(cache, i), cache[i].guestAddr).None?
  {
    var r := Remove(cache, i);
    forall k | 0 <= k < |r|
      ensures r[k].guestAddr != cache[i].guestAddr
    {
      if k < i {
        assert r[k] == cache[k];
      } else {
        assert r[k] == cache[k + 1];
      }
    }
  }

  lemma RemoveKeepsStarts(cache: seq<CodeBlock>, i: nat)
    requires i < |cache| && Distinct(cache)
    ensures Starts(Remove(cache, i)) == Starts(cache) - {cache[i].start}
  {
    RemoveKeepsOthers(cache, i);
    RemoveAddsNone(cache, i);
  }

  lemma RemoveKeepsOthers(cache: seq<CodeBlock>, i: nat)
    requires i < |cache|
    ensures Starts(cache) - {cache[i].start} <= Starts(Remove(cache, i))
  {
    var r := Remove(cache, i);
    forall p | p in Starts(cache) - {cache[i].start}
      ensures p in Starts(r)
    {
      var k :| 0 <= k < |cache| && cache[k].start == p;
      if k < i {
        assert r[k] == cache[k];
      } else {
        assert r[k - 1] == cache[k];
      }
    }
  }

  lemma RemoveAddsNone(cache: seq<CodeBlock>, i: nat)
    requires i < |cache| && Distinct(cache)
    ensures Starts(Remove(cache, i)) <= Starts(cache) - {cache[i].start}
  {
    var r := Remove(cache, i);
    forall k | 0 <= k < |r|
      ensures r[k].start in Starts(cache) && r[k].start != cache[i].start
    {
      if k < i {
        assert r[k] == cache[k];
      } else {
        assert r[k] == cache[k + 1];
      }
    }
  }

  /** Counting hits leaves keys, allocations and order alone. */
  lemma HitDistinct(cache: seq<CodeBlock>, i: nat)
    requires i < |cache| && Distinct(cache)
    ensures Distinct(Hit(cache, i))
    ensures Starts(Hit(cache, i)) == Starts(cache)
  {
    var r := Hit(cache, i);
    assert forall k :: 0 <= k < |cache| ==> r[k].start == cache[k].start && r[k].guestAddr == cache[k].guestAddr;
    forall p | p in Starts(cache)
      ensures p in Starts(r)
    {
      var k :| 0 <= k < |cache| && cache[k].start == p;
      assert r[k].start == p;
    }
  }

  /** Appending a block under a new key and a new allocation keeps the
      cache free of duplicates. */
  lemma AppendDistinct(cache: seq<CodeBlock>, b: CodeBlock)
    requires Distinct(cache)
    requires Lookup(cache, b.guestAddr).None? && b.start !in Starts(cache)
    ensures Distinct(cache + [b])
    ensures Starts(cache + [b]) == Starts(cache) + {b.start}
  {
    var r := cache + [b];
    forall p | p in Starts(cache) + {b.start}
      ensures p in Starts(r)
    {
      if p != b.start {
        var k :| 0 <= k < |cache| && cache[k].start == p;
        assert r[k] == cache[k];
      } else {
        assert r[|cache|] == b;
      }
    }
  }
}
