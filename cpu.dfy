/** The CPU driver: reset state, and Clock, which fetches guest words from
    the BIOS into the recompiler until a control transfer and its delay
    slot (or the cycle budget) end the block, compiles or finds the block
    for the current pc, and runs it. */
module CpuDriver {
  import opened Failure
  import opened Opcode
  import opened CpuState
  import opened MemBlocks
  import opened BlockCache
  import opened Recompiler
  import Bus
  import opened Emit

  /** The reset vector and the word after it. */
  const ResetPc: Word := 0xBFC0_0000

  /** The globals at construction: zeroed registers and coprocessor
      registers (g_state is zero-initialised), pc at the reset vector,
      next_pc four bytes on, both load-delay slots empty. */
  const Reset: Guest :=
    Guest(CPUState(seq(32, _ => 0), seq(32, _ => 0), ResetPc, ResetPc + 4), EmptySlot, EmptySlot)

  /** The address the k-th word of a block is fetched from: pc, then
      next_pc, then four bytes on each time. */
  function FetchAddr(pc: Word, nextPc: Word, k: nat): Word
    decreases k
  {
    if k == 0 then pc else FetchAddr(nextPc, nextPc + 4, k - 1)
  }

  /** The fetch loop of Clock with at most n iterations left: read a word,
      reject an unsupported one, and stop after the delay-slot word when it
      transfers control. */
  function Gather(fetch: Word -> Result<Word>, pc: Word, nextPc: Word, n: int): (r: Result<seq<Word>>)
    ensures r.Ok? ==> AllSupported(r.value) && |r.value| <= (if n < 0 then 0 else n) + 1
    decreases if n < 0 then 0 else n
  {
    if n <= 0 then Ok([])
    else
      var w :- fetch(pc);
      if !Supported(w) then Err(Undecodable(w))
      else if ModifiesPC(w) then
        var d :- fetch(nextPc);
        if !Supported(d) then Err(Undecodable(d)) else Ok([w, d])
      else
        var rest :- Gather(fetch, nextPc, nextPc + 4, n - 1);
        Ok([w] + rest)
  }

  /** Successive EmitInstruction calls on supported words. */
  function EmitAll(rc: Recomp, ws: seq<Word>): Recomp
    requires AllSupported(ws)
    decreases |ws|
  {
    if ws == [] then rc
    else EmitAll(EmitSpec(rc, ws[0]).value.0, ws[1..])
  }

  /** Bus::read<uint32_t> at addr, then EmitInstruction on the word. */
  function EmitAt(fetch: Word -> Result<Word>, rc: Recomp, addr: Word): Result<(Recomp, bool)>
  {
    var w :- fetch(addr);
    EmitSpec(rc, w)
  }

  /** The fetch loop of Clock on the recompiler state, step by step as the
      loop runs, with at most n iterations left. */
  function Fetched(fetch: Word -> Result<Word>, rc: Recomp, pc: Word, nextPc: Word, n: int): Result<Recomp>
    decreases if n < 0 then 0 else n
  {
    if n <= 0 then Ok(rc)
    else
      var (rc1, more) :- EmitAt(fetch, rc, pc);
      if !more then
        var (rc2, _) :- EmitAt(fetch, rc1, nextPc);
        Ok(rc2)
      else Fetched(fetch, rc1, nextPc, nextPc + 4, n - 1)
  }

  /** Clock: gather, emit, compile for the guest pc the call started at,
      and run the block returned. */
  function ClockSpec(g: Guest, rc: Recomp, fetch: Word -> Result<Word>, port: Port, cycles: int, h: nat)
    : Result<(Guest, Recomp)>
  {
    var rc1 :- Fetched(fetch, rc, g.state.pc, g.state.nextPc, cycles);
    Finish(g, rc1, port, h)
  }

  /** The end of Clock, once the words are emitted: compile for the guest
      pc and run the block returned. */
  function Finish(g: Guest, rc1: Recomp, port: Port, h: nat): Result<(Guest, Recomp)>
  {
    var (rc2, b) :- CompileSpec(rc1, g.state.pc, h);
    var g2 :- RunBlock(g, b.code, port);
    Ok((g2, rc2))
  }

  // ---------------------------------------------------------------------
  // Properties

  /** The gathered words were fetched from consecutive addresses. */
  lemma {:induction false} GatherFetches(fetch: Word -> Result<Word>, pc: Word, nextPc: Word, n: int)
    requires Gather(fetch, pc, nextPc, n).Ok?
    ensures var ws := Gather(fetch, pc, nextPc, n).value;
      forall k :: 0 <= k < |ws| ==> fetch(FetchAddr(pc, nextPc, k)) == Ok(ws[k])
    decreases if n < 0 then 0 else n
  {
    if n > 0 && !ModifiesPC(fetch(pc).value) {
      GatherFetches(fetch, nextPc, nextPc + 4, n - 1);
      var ws := Gather(fetch, pc, nextPc, n).value;
      var rest := Gather(fetch, nextPc, nextPc + 4, n - 1).value;
      assert ws == [fetch(pc).value] + rest;
      forall k | 1 <= k < |ws|
        ensures fetch(FetchAddr(pc, nextPc, k)) == Ok(ws[k])
      {
        assert ws[k] == rest[k - 1];
      }
    }
  }

  /** A block ends either when the budget runs out, with no control
      transfer among its words, or right after the delay slot of its first
      control transfer, within the budget plus that one slot. */
  lemma GatherEnds(fetch: Word -> Result<Word>, pc: Word, nextPc: Word, n: int)
    requires Gather(fetch, pc, nextPc, n).Ok?
    ensures var ws := Gather(fetch, pc, nextPc, n).value;
      NoEarlyTransfer(ws) && (RunsOut(ws, n) || EndsAtTransfer(ws, n))
  {
    GatherNoEarlyTransfer(fetch, pc, nextPc, n);
    GatherStops(fetch, pc, nextPc, n);
  }

  /** A successful Gather is its first word followed by the rest. */
  lemma GatherCons(fetch: Word -> Result<Word>, pc: Word, nextPc: Word, n: int)
    requires Gather(fetch, pc, nextPc, n).Ok? && n > 0 && !ModifiesPC(fetch(pc).value)
    ensures Gather(fetch, nextPc, nextPc + 4, n - 1).Ok?
    ensures Gather(fetch, pc, nextPc, n).value == [fetch(pc).value] + Gather(fetch, nextPc, nextPc + 4, n - 1).value
  {
  }

  lemma {:induction false} GatherNoEarlyTransfer(fetch: Word -> Result<Word>, pc: Word, nextPc: Word, n: int)
    requires Gather(fetch, pc, nextPc, n).Ok?
    ensures NoEarlyTransfer(Gather(fetch, pc, nextPc, n).value)
    decreases if n < 0 then 0 else n
  {
    if n > 0 && !ModifiesPC(fetch(pc).value) {
      GatherNoEarlyTransfer(fetch, nextPc, nextPc + 4, n - 1);
      GatherCons(fetch, pc, nextPc, n);
      NoEarlyTransferCons(fetch(pc).value, Gather(fetch, nextPc, nextPc + 4, n - 1).value);
    }
  }

  /** No control transfer before the last two words. */
  predicate NoEarlyTransfer(ws: seq<Word>)
  {
    forall k :: 0 <= k < |ws| - 2 ==> !ModifiesPC(ws[k])
  }

  lemma NoEarlyTransferCons(w: Word, rest: seq<Word>)
    requires !ModifiesPC(w) && NoEarlyTransfer(rest)
    ensures NoEarlyTransfer([w] + rest)
  {
    var ws := [w] + rest;
    forall k | 0 <= k < |ws| - 2
      ensures !ModifiesPC(ws[k])
    {
      if k > 0 {
        assert ws[k] == rest[k - 1];
      }
    }
  }

  /** The block ends right after the delay slot of a control transfer. */
  predicate EndsAtTransfer(ws: seq<Word>, n: int)
  {
    2 <= |ws| <= n + 1 && ModifiesPC(ws[|ws| - 2])
  }

  /** The budget ran out with no control transfer among the words. */
  predicate RunsOut(ws: seq<Word>, n: int)
  {
    |ws| == (if n < 0 then 0 else n) && forall k :: 0 <= k < |ws| ==> !ModifiesPC(ws[k])
  }

  lemma {:induction false} GatherStops(fetch: Word -> Result<Word>, pc: Word, nextPc: Word, n: int)
    requires Gather(fetch, pc, nextPc, n).Ok?
    ensures RunsOut(Gather(fetch, pc, nextPc, n).value, n) || EndsAtTransfer(Gather(fetch, pc, nextPc, n).value, n)
    decreases if n < 0 then 0 else n
  {
    if n > 0 && !ModifiesPC(fetch(pc).value) {
      GatherStops(fetch, nextPc, nextPc + 4, n - 1);
      GatherCons(fetch, pc, nextPc, n);
      StopsCons(fetch(pc).value, Gather(fetch, nextPc, nextPc + 4, n - 1).value, n);
    }
  }

  lemma StopsCons(w: Word, rest: seq<Word>, n: int)
    requires n > 0 && !ModifiesPC(w)
    requires RunsOut(rest, n - 1) || EndsAtTransfer(rest, n - 1)
    ensures RunsOut([w] + rest, n) || EndsAtTransfer([w] + rest, n)
  {
    var ws := [w] + rest;
    if EndsAtTransfer(rest, n - 1) {
      assert ws[|ws| - 2] == rest[|rest| - 2];
    } else {
      forall k | 0 <= k < |ws|
        ensures !ModifiesPC(ws[k])
      {
        if k > 0 {
          assert ws[k] == rest[k - 1];
        }
      }
    }
  }

  /** Emitting words appends them to the pending block and adds their
      estimate to cur_size, and keeps the invariant. */
  lemma {:induction false} EmitAllPending(rc: Recomp, ws: seq<Word>)
    requires AllSupported(ws)
    ensures var rc2 := EmitAll(rc, ws);
      rc2.curInstrs == rc.curInstrs + ws && rc2.blocks == rc.blocks && rc2.cache == rc.cache
    decreases |ws|
  {
    if ws != [] {
      var rc1 := EmitSpec(rc, ws[0]).value.0;
      EmitAllPending(rc1, ws[1..]);
      assert rc.curInstrs + [ws[0]] + ws[1..] == rc.curInstrs + ws;
    }
  }

  /** ... and keeps the invariant. */
  lemma {:induction false} EmitAllKeepsInv(rc: Recomp, ws: seq<Word>, h: nat)
    requires Inv(rc, h) && AllSupported(ws)
    ensures Inv(EmitAll(rc, ws), h)
    decreases |ws|
  {
    if ws != [] {
      EmitInv(rc, ws[0], h);
      EmitAllKeepsInv(EmitSpec(rc, ws[0]).value.0, ws[1..], h);
    }
  }

  /** Running the loop step by step ends where emitting the gathered words
      does, or fails with Gather's error. */
  predicate FetchedAgrees(fetch: Word -> Result<Word>, rc: Recomp, pc: Word, nextPc: Word, n: int)
  {
    Fetched(fetch, rc, pc, nextPc, n) ==
      (match Gather(fetch, pc, nextPc, n)
       case Ok(ws) => Ok(EmitAll(rc, ws))
       case Err(e) => Err(e))
  }

  /** The loop's step-by-step effect is emitting, in order, exactly the
      words Gather fetches; both fail at the same first error. */
  lemma {:induction false} FetchedIsGather(fetch: Word -> Result<Word>, rc: Recomp, pc: Word, nextPc: Word, n: int)
    ensures FetchedAgrees(fetch, rc, pc, nextPc, n)
    decreases if n < 0 then 0 else n
  {
    if n > 0 && fetch(pc).Ok? && Supported(fetch(pc).value) {
      var w := fetch(pc).value;
      if ModifiesPC(w) {
        FetchedTransfer(fetch, rc, pc, nextPc, n);
      } else {
        FetchedIsGather(fetch, EmitSpec(rc, w).value.0, nextPc, nextPc + 4, n - 1);
        FetchedContinues(fetch, rc, pc, nextPc, n);
      }
    }
  }

  /** A control transfer: the loop emits it and its delay slot, as the
      two-word block Gather returns. */
  lemma FetchedTransfer(fetch: Word -> Result<Word>, rc: Recomp, pc: Word, nextPc: Word, n: int)
    requires n > 0 && fetch(pc).Ok? && Supported(fetch(pc).value) && ModifiesPC(fetch(pc).value)
    ensures FetchedAgrees(fetch, rc, pc, nextPc, n)
  {
    var w := fetch(pc).value;
    var rc1 := EmitSpec(rc, w).value.0;
    if fetch(nextPc).Ok? && Supported(fetch(nextPc).value) {
      var d := fetch(nextPc).value;
      assert [w, d][1..] == [d];
      assert [d][1..] == [];
      assert EmitAll(rc, [w, d]) == EmitAll(rc1, [d]);
      assert EmitAll(rc1, [d]) == EmitSpec(rc1, d).value.0;
    }
  }

  /** Any other word: the loop emits it and goes on, as Gather does. */
  lemma FetchedContinues(fetch: Word -> Result<Word>, rc: Recomp, pc: Word, nextPc: Word, n: int)
    requires n > 0 && fetch(pc).Ok? && Supported(fetch(pc).value) && !ModifiesPC(fetch(pc).value)
    requires FetchedAgrees(fetch, EmitSpec(rc, fetch(pc).value).value.0, nextPc, nextPc + 4, n - 1)
    ensures FetchedAgrees(fetch, rc, pc, nextPc, n)
  {
    var w := fetch(pc).value;
    var g := Gather(fetch, nextPc, nextPc + 4, n - 1);
    if g.Ok? {
      assert ([w] + g.value)[1..] == g.value;
    }
  }

  /** Clock keeps the recompiler's invariant. */
  lemma ClockKeepsInv(g: Guest, rc: Recomp, fetch: Word -> Result<Word>, port: Port, cycles: int, h: nat)
    requires Inv(rc, h)
    requires ClockSpec(g, rc, fetch, port, cycles, h).Ok?
    ensures Inv(ClockSpec(g, rc, fetch, port, cycles, h).value.1, h)
  {
    FetchedIsGather(fetch, rc, g.state.pc, g.state.nextPc, cycles);
    var ws := Gather(fetch, g.state.pc, g.state.nextPc, cycles).value;
    EmitAllPending(rc, ws);
    EmitAllKeepsInv(rc, ws, h);
    CompileInv(EmitAll(rc, ws), g.state.pc, h);
  }

  /** On a fresh pending block and a cache miss for pc, Clock runs exactly
      the words it gathered, and leaves them cached under pc. */
  lemma ClockMissRunsGathered(g: Guest, rc: Recomp, fetch: Word -> Result<Word>, port: Port, cycles: int, h: nat)
    requires Inv(rc, h) && rc.curInstrs == []
    requires Lookup(rc.cache, g.state.pc).None? && |rc.cache| < Capacity
    requires ClockSpec(g, rc, fetch, port, cycles, h).Ok?
    ensures var ws := Gather(fetch, g.state.pc, g.state.nextPc, cycles);
      ws.Ok? && RunBlock(g, ws.value, port).Ok? &&
      ClockSpec(g, rc, fetch, port, cycles, h).value.0 == RunBlock(g, ws.value, port).value
    ensures var rc2 := ClockSpec(g, rc, fetch, port, cycles, h).value.1;
      Lookup(rc2.cache, g.state.pc).Some? &&
      rc2.cache[Lookup(rc2.cache, g.state.pc).value].code == Gather(fetch, g.state.pc, g.state.nextPc, cycles).value
  {
    FetchedIsGather(fetch, rc, g.state.pc, g.state.nextPc, cycles);
    var ws := Gather(fetch, g.state.pc, g.state.nextPc, cycles).value;
    EmitAllPending(rc, ws);
    EmitAllKeepsInv(rc, ws, h);
    var rc1 := EmitAll(rc, ws);
    assert rc1.curInstrs == ws by {
      assert [] + ws == ws;
    }
    assert ClockSpec(g, rc, fetch, port, cycles, h) == Finish(g, rc1, port, h);
    CompileAfterEvict(rc1, g.state.pc, h);
    assert Evict(rc1, h) == Ok(rc1);
    InstallMiss(rc1, g.state.pc, h);
    InstallCaches(rc1, g.state.pc, h);
    assert Install(rc1, g.state.pc, h).value.1.code == ws;
  }

  /** On a cache hit for pc, Clock runs the cached block, whatever it
      gathered; the gathered words stay pending for the next miss. */
  lemma ClockHitRunsCached(g: Guest, rc: Recomp, fetch: Word -> Result<Word>, port: Port, cycles: int, h: nat)
    requires Inv(rc, h) && |rc.cache| < Capacity
    requires Lookup(rc.cache, g.state.pc).Some?
    requires Gather(fetch, g.state.pc, g.state.nextPc, cycles).Ok?
    ensures var ws := Gather(fetch, g.state.pc, g.state.nextPc, cycles).value;
      var i := Lookup(rc.cache, g.state.pc).value;
      ClockSpec(g, rc, fetch, port, cycles, h) ==
        (match RunBlock(g, rc.cache[i].code, port)
         case Ok(g2) => Ok((g2, EmitAll(rc, ws).(cache := Hit(rc.cache, i))))
         case Err(e) => Err(e))
    ensures ClockSpec(g, rc, fetch, port, cycles, h).Ok? ==>
      var ws := Gather(fetch, g.state.pc, g.state.nextPc, cycles).value;
      ClockSpec(g, rc, fetch, port, cycles, h).value.1.curInstrs == rc.curInstrs + ws
  {
    FetchedIsGather(fetch, rc, g.state.pc, g.state.nextPc, cycles);
    var ws := Gather(fetch, g.state.pc, g.state.nextPc, cycles).value;
    EmitAllPending(rc, ws);
    EmitAllKeepsInv(rc, ws, h);
    var rc1 := EmitAll(rc, ws);
    CompileAfterEvict(rc1, g.state.pc, h);
    InstallHit(rc1, g.state.pc, h);
  }

  // ---------------------------------------------------------------------
  // The CPU object

  class CPU {
    /** g_state and the two load-delay slots. */
    var g: Guest
    const recomp: CPURecompiler
    /** The BIOS image the bus reads code from. */
    const bios: Bus.BiosImage
    /** Bus::read<uint32_t> on that image, the instruction fetch. */
    const fetch: Word -> Result<Word>
    /** The bus as seen by the emitted loads and stores. */
    const port: Port

    ghost predicate Valid()
      reads this, recomp
    {
      recomp.Valid() && StoresWordThroughBus(port)
    }

    constructor(bios: Bus.BiosImage, port: Port)
      requires StoresWordThroughBus(port)
      ensures Valid() && fresh(recomp)
      ensures g == Reset && recomp.State() == Initial(HostHeader) && recomp.H == HostHeader
      ensures this.bios == bios && this.port == port
      ensures forall a :: fetch(a) == Bus.Read(bios, a, Bus.Full)
    {
      var pc: Word := 0xBFC0_0000;
      g := Guest(CPUState(seq(32, _ => 0), seq(32, _ => 0), pc, pc + 4), EmptySlot, EmptySlot);
      recomp := new CPURecompiler(HostHeader);
      this.bios := bios;
      this.fetch := a => Bus.Read(bios, a, Bus.Full);
      this.port := port;
    }

    /** Bus::read<uint32_t> at addr, then EmitInstruction on the word. */
    method EmitFrom(addr: Word) returns (r: Result<bool>)
      requires Valid()
      modifies recomp
      ensures match EmitAt(fetch, old(recomp.State()), addr)
        case Ok((st, more)) => r == Ok(more) && recomp.State() == st && Valid()
        case Err(e) => r == Err(e)
    {
      var opcode := fetch(addr);
      if opcode.Err? {
        return Err(opcode.error);
      }
      r := recomp.EmitInstruction(opcode.value);
    }

    /** The fetch loop of Clock: local copies of pc and next_pc walk the
        BIOS, each word goes to EmitInstruction, and the word after the
        first control transfer (its delay slot) closes the block. */
    method FetchBlock(cycles: int) returns (r: Outcome)
      requires Valid()
      modifies recomp
      ensures match Fetched(fetch, old(recomp.State()), g.state.pc, g.state.nextPc, cycles)
        case Ok(rc1) => r == Pass && recomp.State() == rc1 && Valid()
        case Err(e) => r == Fail(e)
    {
      ghost var start := Fetched(fetch, recomp.State(), g.state.pc, g.state.nextPc, cycles);
      var pc := g.state.pc;
      var nextPc := g.state.nextPc;
      var i := 0;
      while i < cycles
        invariant recomp.Valid()
        invariant start == Fetched(fetch, recomp.State(), pc, nextPc, cycles - i)
      {
        var shouldContinue := EmitFrom(pc);
        if shouldContinue.Err? {
          return Fail(shouldContinue.error);
        }
        pc := nextPc;
        nextPc := nextPc + 4;
        if !shouldContinue.value {
          // one more word for the delay slot
          var last := EmitFrom(pc);
          if last.Err? {
            return Fail(last.error);
          }
          pc := nextPc;
          nextPc := nextPc + 4;
          break;
        }
        i := i + 1;
      }
      return Pass;
    }

    /** Clock(cycles): fetch and emit, then compile the block for the guest
        pc and call it. Only the compiled block changes the guest's own pc
        and next_pc. */
    method Clock(cycles: int) returns (r: Outcome)
      requires Valid()
      modifies this, recomp
      ensures match ClockSpec(old(g), old(recomp.State()), fetch, port, cycles, recomp.H)
        case Ok((g2, rc2)) => r == Pass && g == g2 && recomp.State() == rc2 && Valid()
        case Err(e) => r == Fail(e)
    {
      r := FetchBlock(cycles);
      if r.Fail? {
        return;
      }
      var compiled := recomp.CompileBlock(g.state.pc);
      if compiled.Err? {
        return Fail(compiled.error);
      }
      var run := RunBlock(g, compiled.value.code, port);
      if run.Err? {
        return Fail(run.error);
      }
      g := run.value;
      return Pass;
    }
  }
}
