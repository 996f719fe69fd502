/** What emitted code does when it runs, in the final buffer it becomes part of. */
module EmitterProof {
  import opened Words
  import opened Arm64
  import opened Emitter
  import opened Options
  import InstrUtil

  /** Index of the first literal word. Once a literal exists it is one below the words still
      in reach: `EmitMovLiteral` gives up two words but stores the literal one word lower. */
  function PoolStart(b: Buf): nat { if b.cap == |b.slots| || b.cap == 0 then b.cap else b.cap - 1 }

  /** No instruction has been written over a literal. */
  predicate Intact(b: Buf) { b.size <= PoolStart(b) }

  /** The code and the literals of `b` are still there in `slots`. */
  ghost predicate Extends(slots: seq<Slot>, b: Buf)
  {
    && |slots| == |b.slots|
    && slots[..b.size] == b.slots[..b.size]
    && slots[PoolStart(b)..] == b.slots[PoolStart(b)..]
  }

  /** Emission keeps what is already emitted, provided it stays clear of the literals. */
  ghost predicate Grows(b: Buf, b': Buf)
  {
    && |b'.slots| == |b.slots| && b.size <= b'.size && b'.cap <= b.cap
    && PoolStart(b') <= PoolStart(b)
    && b'.slots[..b.size] == b.slots[..b.size]
    && (Intact(b') ==> b'.slots[PoolStart(b)..] == b.slots[PoolStart(b)..])
  }

  lemma GrowsCompose(a: Buf, b: Buf, c: Buf)
    requires Grows(a, b) && Grows(b, c)
    ensures Grows(a, c)
  {
    assert c.slots[..a.size] == c.slots[..b.size][..a.size];
    assert b.slots[..a.size] == b.slots[..b.size][..a.size];
    if Intact(c) {
      var k := PoolStart(a) - PoolStart(b);
      assert c.slots[PoolStart(a)..] == c.slots[PoolStart(b)..][k..];
      assert b.slots[PoolStart(a)..] == b.slots[PoolStart(b)..][k..];
    }
  }

  lemma ExtendsEarlier(slots: seq<Slot>, b: Buf, b': Buf)
    requires Grows(b, b') && Intact(b') && Extends(slots, b')
    ensures Extends(slots, b) && Intact(b)
  {
    assert slots[..b.size] == slots[..b'.size][..b.size];
    assert b'.slots[..b.size] == b'.slots[..b'.size][..b.size];
    var k := PoolStart(b) - PoolStart(b');
    assert slots[PoolStart(b)..] == slots[PoolStart(b')..][k..];
    assert b'.slots[PoolStart(b)..] == b'.slots[PoolStart(b')..][k..];
  }

  lemma AddGrows(b: Buf, slot: Slot)
    ensures Add(b, slot).Some? ==> Grows(b, Add(b, slot).value)
  {
  }

  lemma EmitMovGrows(b: Buf, rx: U64, literals: bool, reg: Reg, value: U64)
    ensures var e := EmitMov(b, rx, literals, reg, value); e.Some? ==> Grows(b, e.value)
  {
    var pc := Pc(b, rx);
    if AdrReaches(pc, value) {
      AddGrows(b, Ins(AdrFor(reg, pc, value)));
    } else if AdrpReaches(pc, value) {
      var adrp := Add(b, Ins(AdrpFor(reg, pc, value)));
      AddGrows(b, Ins(AdrpFor(reg, pc, value)));
      if adrp.Some? {
        AddGrows(adrp.value, Ins(AddImm(reg, reg, value % TWO12)));
      }
    } else if literals {
      LiteralGrows(b, rx, reg, value);
    } else {
      MovChunksGrow(b, rx, reg, value);
    }
  }

  lemma LiteralGrows(b: Buf, rx: U64, reg: Reg, value: U64)
    ensures var e := EmitMovLiteral(b, rx, reg, value); e.Some? ==> Grows(b, e.value)
  {
  }

  lemma EmitBranchGrows(b: Buf, rx: U64, literals: bool, to: U64, link: bool)
    ensures var e := EmitBranch(b, rx, literals, to, link); e.Some? ==> Grows(b, e.value)
  {
    var pc := Pc(b, rx);
    if !BranchReaches(pc, to) {
      EmitMovGrows(b, rx, literals, IP0, to);
      var moved := EmitMov(b, rx, literals, IP0, to);
      if moved.Some? {
        AddGrows(moved.value, Ins(if link then Blr(IP0) else Br(IP0)));
      }
    }
  }

  // ----- running what was emitted -----

  lemma StepFall(env: Env, code: Code, k: nat, s: State, s': State)
    requires Placed(code) && k < |code.slots| && code.slots[k].Ins?
    requires Exec(env, Loader(env, code), AddressOf(code.base, k), code.slots[k].i, s) == Fall(s')
    ensures Run(env, code, 1, At(AddressOf(code.base, k), s)) == At(AddressOf(code.base, k + 1), s')
  {
    Addresses(code, k);
    Addresses(code, k + 1);
    assert Run(env, code, 1, At(AddressOf(code.base, k), s)) == Step(env, code, At(AddressOf(code.base, k), s));
  }

  lemma StepGoto(env: Env, code: Code, k: nat, s: State, to: U64, s': State)
    requires Placed(code) && k < |code.slots| && code.slots[k].Ins?
    requires Exec(env, Loader(env, code), AddressOf(code.base, k), code.slots[k].i, s) == Goto(to, s')
    ensures Run(env, code, 1, At(AddressOf(code.base, k), s)) == At(to, s')
  {
    Addresses(code, k);
    assert Run(env, code, 1, At(AddressOf(code.base, k), s)) == Step(env, code, At(AddressOf(code.base, k), s));
  }

  lemma Addresses(code: Code, k: nat)
    requires Placed(code) && k <= |code.slots|
    ensures AddressOf(code.base, k) == code.base + 4 * k && AddressOf(code.base, k) % 4 == 0
  {
  }

  /** The instruction just added is the one the final buffer holds there. */
  lemma AddedSlot(slots: seq<Slot>, b: Buf, slot: Slot)
    requires Add(b, slot).Some? && Extends(slots, Add(b, slot).value)
    ensures b.size < |slots| && slots[b.size] == slot
  {
    var b' := Add(b, slot).value;
    assert slots[b.size] == slots[..b'.size][b.size];
  }

  lemma AdrLoads(pc: U64, value: U64)
    requires AdrReaches(pc, value)
    ensures Wrap64(pc + SignExtend((value - pc) % TWO21 % TWO21, TWO21)) == value
  {
    var k := SignedQuotient(pc - value, TWO64);
    var s := S64(pc - value);
    SignedIsUnique(value - pc, TWO21, -s, -k * (TWO64 / TWO21));
    DivModUnique(pc - s, TWO64, k, value);
    ModTwice(value - pc, TWO21);
  }

  lemma AdrpLoads(pc: U64, value: U64)
    requires AdrpReaches(pc, value)
    ensures var imm := S64(PageOf(value) - PageOf(pc)) / TWO12 % TWO21;
            Wrap64(PageOf(pc) + TWO12 * SignExtend(imm % TWO21, TWO21)) == PageOf(value)
  {
    var pp: int, pv: int := PageOf(pc), PageOf(value);
    var k := SignedQuotient(pp - pv, TWO64);
    var s := S64(pp - pv);
    SignedIsUnique(pv - pp, TWO64, -s, -k);
    var i, j := pc / TWO12, value / TWO12;
    assert pp == i * TWO12 && pv == j * TWO12;
    var p := i - j - k * (TWO64 / TWO12);
    assert s == p * TWO12;
    assert -s == -p * TWO12;
    DivModUnique(-s, TWO12, -p, 0);
    DivModUnique(Abs(s), TWO12, Abs(p), 0);
    SignedIsUnique(-p, TWO21, -p, 0);
    ModTwice(-p, TWO21);
    DivModUnique(pp - s, TWO64, k, pv);
  }

  lemma ExecAdr(env: Env, load: U64 -> U64, pc: U64, reg: Reg, value: U64, s: State)
    requires AdrReaches(pc, value)
    ensures Exec(env, load, pc, AdrFor(reg, pc, value), s) == Fall(Set(s, reg, value))
  {
    AdrLoads(pc, value);
  }

  lemma ExecAdrp(env: Env, load: U64 -> U64, pc: U64, reg: Reg, value: U64, s: State)
    requires AdrpReaches(pc, value)
    ensures Exec(env, load, pc, AdrpFor(reg, pc, value), s) == Fall(Set(s, reg, PageOf(value)))
  {
    AdrpLoads(pc, value);
  }

  /** The emitted pair ADRP and ADD is chosen and adds something: with register 31 the ADRP is
      discarded, and the ADD takes that number for the stack pointer. */
  predicate MovesStack(pc: U64, value: U64)
  {
    !AdrReaches(pc, value) && AdrpReaches(pc, value) && value % TWO12 != 0
  }

  /** The state ADRP and ADD leave: the ADD takes register 31 for the stack pointer. */
  function AddedLow(s: State, reg: Reg, value: U64): State
  {
    if reg == ZR then s.(sp := Wrap64(s.sp + value % TWO12)) else Set(s, reg, value)
  }

  /** The state an emitted move leaves. */
  function Moved(s: State, reg: Reg, value: U64, pc: U64): State
  {
    if MovesStack(pc, value) then AddedLow(s, reg, value) else Set(s, reg, value)
  }

  lemma ExecAddLow(env: Env, load: U64 -> U64, pc: U64, reg: Reg, value: U64, s: State)
    ensures Exec(env, load, pc, AddImm(reg, reg, value % TWO12), Set(s, reg, PageOf(value)))
         == Fall(AddedLow(s, reg, value))
  {
    assert Set(Set(s, reg, PageOf(value)), reg, value) == Set(s, reg, value);
  }

  /** A 64-bit literal in the pool is loaded back from its two words. */
  lemma LiteralLoads(env: Env, code: Code, b: Buf, reg: Reg, value: U64)
    requires Placed(code) && |b.slots| == |code.slots|
    requires EmitMovLiteral(b, code.base, reg, value).Some?
    requires var b' := EmitMovLiteral(b, code.base, reg, value).value; Intact(b') && Extends(code.slots, b')
    ensures b.size < |code.slots| && code.slots[b.size].Ins?
    ensures forall s: State :: Exec(env, Loader(env, code), AddressOf(code.base, b.size), code.slots[b.size].i, s)
                            == Fall(Set(s, reg, value))
  {
    var b' := EmitMovLiteral(b, code.base, reg, value).value;
    var at := b.cap - 3;
    LiteralInReach(code, b, reg, value, b', at);
    LiteralIsStored(env, code, b, reg, value, b', at);
  }

  /** The load is emitted and points at the literal. */
  lemma LiteralInReach(code: Code, b: Buf, reg: Reg, value: U64, b': Buf, at: nat)
    requires Placed(code) && EmitMovLiteral(b, code.base, reg, value) == Some(b') && at == b.cap - 3
    requires |b.slots| == |code.slots| && Intact(b') && Extends(code.slots, b')
    ensures b.size < |code.slots| && b.size <= at && code.slots[b.size] == Ins(LdrLiteral(reg, at - b.size))
    ensures RelativeTarget(AddressOf(code.base, b.size), at - b.size, TWO19) == AddressOf(code.base, at)
  {
    Addresses(code, b.size);
    Addresses(code, at);
    assert Wrap64(4 * (at - b.size)) == 4 * (at - b.size);
    assert b'.slots[b.size] == Ins(LdrLiteral(reg, at - b.size));
    assert code.slots[b.size] == code.slots[..b'.size][b.size];
  }

  lemma LiteralIsStored(env: Env, code: Code, b: Buf, reg: Reg, value: U64, b': Buf, at: nat)
    requires Placed(code) && EmitMovLiteral(b, code.base, reg, value) == Some(b') && at == b.cap - 3
    requires Intact(b') && Extends(code.slots, b')
    ensures at + 1 < |code.slots| && LoadCode(env, code, AddressOf(code.base, at)) == value
  {
    Addresses(code, at);
    assert code.slots[at] == code.slots[PoolStart(b')..][0] == b'.slots[PoolStart(b')..][0];
    assert code.slots[at + 1] == code.slots[PoolStart(b')..][1] == b'.slots[PoolStart(b')..][1];
  }

  // ----- the chunk-wise move -----

  /** The chunks of `v` below `i` are those of `value`; from `i` on, MOVK still has to come for
      every chunk that the value of the register at the start does not have. */
  ghost predicate ChunksDone(v: U64, value: U64, start: U64, i: nat)
    requires i <= 4
  {
    && (forall j :: 0 <= j < i ==> Chunk(v, j) == Chunk(value, j))
    && (forall j :: i <= j < 4 ==> Chunk(v, j) == Chunk(start, j))
  }

  lemma InsertedChunks(v: U64, imm: U16, i: nat)
    requires i < 4
    ensures forall j :: 0 <= j < 4 ==> Chunk(InsertChunk(v, imm, i), j) == if j == i then imm else Chunk(v, j)
  {
    ChunksOf(
      if i == 0 then imm else Chunk(v, 0), if i == 1 then imm else Chunk(v, 1),
      if i == 2 then imm else Chunk(v, 2), if i == 3 then imm else Chunk(v, 3));
  }

  lemma ChunkStep(v: U64, value: U64, start: U64, i: nat)
    requires i < 4 && ChunksDone(v, value, start, i)
    ensures ChunksDone(InsertChunk(v, Chunk(value, i), i), value, start, i + 1)
  {
    InsertedChunks(v, Chunk(value, i), i);
  }

  lemma ChunksComplete(v: U64, value: U64, start: U64)
    requires ChunksDone(v, value, start, 4)
    ensures v == value
  {
    WordFromChunks(value);
    WordFromChunks(v);
  }

  lemma {:induction false} MovksGrow(b: Buf, reg: Reg, value: U64, pc: U64, i: nat)
    requires i <= 4
    ensures var e := EmitMovks(b, reg, value, pc, i); e.Some? ==> Grows(b, e.value)
    decreases 4 - i
  {
    if i < 4 {
      if Chunk(value, i) == Chunk(pc, i) {
        MovksGrow(b, reg, value, pc, i + 1);
      } else {
        var slot := Ins(Movk(reg, Chunk(value, i), i));
        AddGrows(b, slot);
        if Add(b, slot).Some? {
          MovksGrow(Add(b, slot).value, reg, value, pc, i + 1);
          var e := EmitMovks(Add(b, slot).value, reg, value, pc, i + 1);
          if e.Some? {
            GrowsCompose(b, Add(b, slot).value, e.value);
          }
        }
      }
    }
  }

  function SelfAddressed(b: Buf, rx: U64, reg: Reg): Buf
    requires b.size < b.cap
  {
    Add(b, Ins(AdrFor(reg, Pc(b, rx), Pc(b, rx)))).value
  }

  /** One MOVK of the sequence. */
  lemma {:induction false} MovkStep(
      env: Env, code: Code, b: Buf, e: Buf, reg: Reg, value: U64, pc: U64, i: nat, s: State)
    returns (next: Buf, s1: State)
    requires Placed(code) && |b.slots| == |code.slots| && i < 4 && Chunk(value, i) != Chunk(pc, i)
    requires EmitMovks(b, reg, value, pc, i) == Some(e) && Intact(e) && Extends(code.slots, e)
    ensures |next.slots| == |code.slots| && EmitMovks(next, reg, value, pc, i + 1) == Some(e)
    ensures s1 == Set(s, reg, InsertChunk(Get(s, reg), Chunk(value, i), i))
    ensures Run(env, code, 1, At(AddressOf(code.base, b.size), s)) == At(AddressOf(code.base, next.size), s1)
  {
    var slot := Ins(Movk(reg, Chunk(value, i), i));
    next := Add(b, slot).value;
    s1 := Set(s, reg, InsertChunk(Get(s, reg), Chunk(value, i), i));
    MovksGrow(next, reg, value, pc, i + 1);
    ExtendsEarlier(code.slots, next, e);
    AddedSlot(code.slots, b, slot);
    StepFall(env, code, b.size, s, s1);
  }

  lemma SetTwice(s: State, reg: Reg, v: U64, w: U64)
    ensures Set(Set(s, reg, v), reg, w) == Set(s, reg, w)
  {
  }

  lemma MovChunksGrow(b: Buf, rx: U64, reg: Reg, value: U64)
    ensures var e := EmitMovChunks(b, rx, reg, value); e.Some? ==> Grows(b, e.value)
  {
    var pc := Pc(b, rx);
    if !SomeChunkMatches(value, pc) {
      MovksGrow(b, reg, value, pc, 0);
    } else if b.size < b.cap {
      var start := SelfAddressed(b, rx, reg);
      AddGrows(b, Ins(AdrFor(reg, pc, pc)));
      MovksGrow(start, reg, value, pc, 0);
      if EmitMovks(start, reg, value, pc, 0).Some? {
        GrowsCompose(b, start, EmitMovks(start, reg, value, pc, 0).value);
      }
    }
  }

  /** The MOVK sequence completes the register to `value` when the chunks it skips are there. */
  lemma {:induction false} MovksRun(
    env: Env, code: Code, b: Buf, e: Buf, reg: Reg, value: U64, pc: U64, i: nat, start: U64, s: State)
    returns (n: nat)
    requires Placed(code) && |b.slots| == |code.slots| && i <= 4 && reg != ZR
    requires EmitMovks(b, reg, value, pc, i) == Some(e) && Intact(e) && Extends(code.slots, e)
    requires ChunksDone(Get(s, reg), value, start, i)
    requires start == pc || !SomeChunkMatches(value, pc)
    ensures Run(env, code, n, At(AddressOf(code.base, b.size), s))
         == At(AddressOf(code.base, e.size), Set(s, reg, value))
    decreases 4 - i
  {
    if i == 4 {
      ChunksComplete(Get(s, reg), value, start);
      n := 0;
    } else if Chunk(value, i) == Chunk(pc, i) {
      assert SomeChunkMatches(value, pc);
      n := MovksRun(env, code, b, e, reg, value, pc, i + 1, start, s);
    } else {
      var next, s1 := MovkStep(env, code, b, e, reg, value, pc, i, s);
      ChunkStep(Get(s, reg), value, start, i);
      var m := MovksRun(env, code, next, e, reg, value, pc, i + 1, start, s1);
      SetTwice(s, reg, Get(s1, reg), value);
      RunCompose(env, code, 1, m, At(AddressOf(code.base, b.size), s));
      n := 1 + m;
    }
  }

  /** Into register 31 the MOVK sequence changes nothing. */
  lemma {:induction false} MovksDiscarded(env: Env, code: Code, b: Buf, e: Buf, value: U64, pc: U64, i: nat, s: State)
    returns (n: nat)
    requires Placed(code) && |b.slots| == |code.slots| && i <= 4
    requires EmitMovks(b, ZR, value, pc, i) == Some(e) && Intact(e) && Extends(code.slots, e)
    ensures Run(env, code, n, At(AddressOf(code.base, b.size), s)) == At(AddressOf(code.base, e.size), s)
    decreases 4 - i
  {
    if i == 4 {
      n := 0;
    } else if Chunk(value, i) == Chunk(pc, i) {
      n := MovksDiscarded(env, code, b, e, value, pc, i + 1, s);
    } else {
      var next, s1 := MovkStep(env, code, b, e, ZR, value, pc, i, s);
      var m := MovksDiscarded(env, code, next, e, value, pc, i + 1, s1);
      RunCompose(env, code, 1, m, At(AddressOf(code.base, b.size), s));
      n := 1 + m;
    }
  }

  /** The MOVK sequence over all four chunks. */
  lemma {:induction false} AllMovksRun(env: Env, code: Code, b: Buf, e: Buf, reg: Reg, value: U64, pc: U64, s: State)
    returns (n: nat)
    requires Placed(code) && |b.slots| == |code.slots|
    requires EmitMovks(b, reg, value, pc, 0) == Some(e) && Intact(e) && Extends(code.slots, e)
    requires Get(s, reg) == pc || reg == ZR || !SomeChunkMatches(value, pc)
    ensures Run(env, code, n, At(AddressOf(code.base, b.size), s))
         == At(AddressOf(code.base, e.size), Set(s, reg, value))
  {
    if reg == ZR {
      n := MovksDiscarded(env, code, b, e, value, pc, 0, s);
    } else {
      n := MovksRun(env, code, b, e, reg, value, pc, 0, Get(s, reg), s);
    }
  }

  /** The chunk-wise move loads the value, whether or not it starts from its own address. */
  lemma MovChunksRun(env: Env, code: Code, b: Buf, e: Buf, reg: Reg, value: U64, s: State) returns (n: nat)
    requires Placed(code) && |b.slots| == |code.slots|
    requires EmitMovChunks(b, code.base, reg, value) == Some(e) && Intact(e) && Extends(code.slots, e)
    ensures Run(env, code, n, At(AddressOf(code.base, b.size), s))
         == At(AddressOf(code.base, e.size), Set(s, reg, value))
  {
    var pc := Pc(b, code.base);
    if SomeChunkMatches(value, pc) {
      n := AdrThenMovksRun(env, code, b, e, reg, value, s);
    } else {
      n := AllMovksRun(env, code, b, e, reg, value, pc, s);
    }
  }

  lemma MovksKeepStart(slots: seq<Slot>, start: Buf, e: Buf, reg: Reg, value: U64, pc: U64)
    requires EmitMovks(start, reg, value, pc, 0) == Some(e) && Intact(e) && Extends(slots, e)
    ensures Extends(slots, start) && Intact(start)
  {
    MovksGrow(start, reg, value, pc, 0);
    ExtendsEarlier(slots, start, e);
  }

  lemma {:induction false} AdrThenMovksRun(env: Env, code: Code, b: Buf, e: Buf, reg: Reg, value: U64, s: State)
    returns (n: nat)
    requires Placed(code) && |b.slots| == |code.slots| && b.size < b.cap
    requires EmitMovks(SelfAddressed(b, code.base, reg), reg, value, Pc(b, code.base), 0) == Some(e)
    requires Intact(e) && Extends(code.slots, e)
    ensures Run(env, code, n, At(AddressOf(code.base, b.size), s))
         == At(AddressOf(code.base, e.size), Set(s, reg, value))
  {
    var pc := Pc(b, code.base);
    var start := SelfAddressed(b, code.base, reg);
    MovksKeepStart(code.slots, start, e, reg, value, pc);
    var l := SelfAddressStep(env, code, b, reg, s);
    var m := AllMovksRun(env, code, start, e, reg, value, pc, Set(s, reg, pc));
    SetTwice(s, reg, pc, value);
    n := l + m;
    RunsOn(env, code, l, m, At(AddressOf(code.base, b.size), s), At(AddressOf(code.base, start.size), Set(s, reg, pc)));
  }

  lemma RunsOn(env: Env, code: Code, l: nat, m: nat, c: Config, d: Config)
    requires Run(env, code, l, c) == d
    ensures Run(env, code, l + m, c) == Run(env, code, m, d)
  {
    RunCompose(env, code, l, m, c);
  }

  lemma SelfAddressStep(env: Env, code: Code, b: Buf, reg: Reg, s: State) returns (n: nat)
    requires Placed(code) && |b.slots| == |code.slots| && b.size < b.cap
    requires Extends(code.slots, SelfAddressed(b, code.base, reg))
    ensures Run(env, code, n, At(AddressOf(code.base, b.size), s))
         == At(AddressOf(code.base, b.size + 1), Set(s, reg, Pc(b, code.base)))
  {
    var pc := Pc(b, code.base);
    AddedSlot(code.slots, b, Ins(AdrFor(reg, pc, pc)));
    ExecAdr(env, Loader(env, code), pc, reg, pc, s);
    StepFall(env, code, b.size, s, Set(s, reg, pc));
    n := 1;
  }

  // ----- moves, jumps and calls -----

  /** Running an emitted 64-bit move sets the register to the value and changes nothing else;
      only register 31 can cost the stack pointer. */
  lemma EmitMovRuns(env: Env, code: Code, b: Buf, literals: bool, reg: Reg, value: U64, s: State) returns (n: nat)
    requires Placed(code) && |b.slots| == |code.slots|
    requires EmitMov(b, code.base, literals, reg, value).Some?
    requires var b' := EmitMov(b, code.base, literals, reg, value).value; Intact(b') && Extends(code.slots, b')
    ensures Run(env, code, n, At(AddressOf(code.base, b.size), s))
         == At(AddressOf(code.base, EmitMov(b, code.base, literals, reg, value).value.size),
               Moved(s, reg, value, Pc(b, code.base)))
  {
    var pc := Pc(b, code.base);
    n := 1;
    if AdrReaches(pc, value) {
      AddedSlot(code.slots, b, Ins(AdrFor(reg, pc, value)));
      ExecAdr(env, Loader(env, code), pc, reg, value, s);
      StepFall(env, code, b.size, s, Set(s, reg, value));
    } else if AdrpReaches(pc, value) {
      n := MovNearRuns(env, code, b, reg, value, s);
    } else if literals {
      LiteralLoads(env, code, b, reg, value);
      StepFall(env, code, b.size, s, Set(s, reg, value));
    } else {
      n := MovChunksRun(env, code, b, EmitMovChunks(b, code.base, reg, value).value, reg, value, s);
    }
  }

  /** Into any other register the move changes nothing else. */
  lemma {:induction false} EmitMovSets(env: Env, code: Code, b: Buf, literals: bool, reg: Reg, value: U64, s: State)
    returns (n: nat)
    requires Placed(code) && |b.slots| == |code.slots| && reg != ZR
    requires EmitMov(b, code.base, literals, reg, value).Some?
    requires var b' := EmitMov(b, code.base, literals, reg, value).value; Intact(b') && Extends(code.slots, b')
    ensures Run(env, code, n, At(AddressOf(code.base, b.size), s))
         == At(AddressOf(code.base, EmitMov(b, code.base, literals, reg, value).value.size), Set(s, reg, value))
  {
    n := EmitMovRuns(env, code, b, literals, reg, value, s);
  }

  lemma {:induction false} MovNearRuns(env: Env, code: Code, b: Buf, reg: Reg, value: U64, s: State) returns (n: nat)
    requires Placed(code) && |b.slots| == |code.slots|
    requires !AdrReaches(Pc(b, code.base), value) && AdrpReaches(Pc(b, code.base), value)
    requires EmitMovNear(b, code.base, reg, value).Some?
    requires var b' := EmitMovNear(b, code.base, reg, value).value; Intact(b') && Extends(code.slots, b')
    ensures Run(env, code, n, At(AddressOf(code.base, b.size), s))
         == At(AddressOf(code.base, EmitMovNear(b, code.base, reg, value).value.size),
               Moved(s, reg, value, Pc(b, code.base)))
  {
    var adrp := Add(b, Ins(AdrpFor(reg, Pc(b, code.base), value))).value;
    if value % TWO12 != 0 {
      n := PairRuns(env, code, b, adrp, Add(adrp, Ins(AddImm(reg, reg, value % TWO12))).value, reg, value, s);
    } else {
      n := AdrpStep(env, code, b, reg, value, s);
    }
  }

  lemma {:induction false} PairRuns(
    env: Env, code: Code, b: Buf, adrp: Buf, e: Buf, reg: Reg, value: U64, s: State) returns (n: nat)
    requires Placed(code) && |b.slots| == |code.slots| && AdrpReaches(Pc(b, code.base), value)
    requires Add(b, Ins(AdrpFor(reg, Pc(b, code.base), value))) == Some(adrp)
    requires Add(adrp, Ins(AddImm(reg, reg, value % TWO12))) == Some(e) && Intact(e) && Extends(code.slots, e)
    ensures Run(env, code, n, At(AddressOf(code.base, b.size), s))
         == At(AddressOf(code.base, e.size), AddedLow(s, reg, value))
  {
    AddGrows(adrp, Ins(AddImm(reg, reg, value % TWO12)));
    ExtendsEarlier(code.slots, adrp, e);
    var m := AdrpStep(env, code, b, reg, value, s);
    var l := AddStep(env, code, adrp, reg, value, s);
    RunCompose(env, code, m, l, At(AddressOf(code.base, b.size), s));
    n := m + l;
  }

  lemma AdrpStep(env: Env, code: Code, b: Buf, reg: Reg, value: U64, s: State) returns (n: nat)
    requires Placed(code) && |b.slots| == |code.slots| && AdrpReaches(Pc(b, code.base), value) && b.size < b.cap
    requires Extends(code.slots, Add(b, Ins(AdrpFor(reg, Pc(b, code.base), value))).value)
    ensures Run(env, code, n, At(AddressOf(code.base, b.size), s))
         == At(AddressOf(code.base, b.size + 1), Set(s, reg, PageOf(value)))
  {
    var pc := Pc(b, code.base);
    ExecAdrp(env, Loader(env, code), pc, reg, value, s);
    AddedSlot(code.slots, b, Ins(AdrpFor(reg, pc, value)));
    StepFall(env, code, b.size, s, Set(s, reg, PageOf(value)));
    n := 1;
  }

  lemma AddStep(env: Env, code: Code, b: Buf, reg: Reg, value: U64, s: State) returns (n: nat)
    requires Placed(code) && |b.slots| == |code.slots| && b.size < b.cap
    requires Extends(code.slots, Add(b, Ins(AddImm(reg, reg, value % TWO12))).value)
    ensures Run(env, code, n, At(AddressOf(code.base, b.size), Set(s, reg, PageOf(value))))
         == At(AddressOf(code.base, b.size + 1), AddedLow(s, reg, value))
  {
    var low := AddImm(reg, reg, value % TWO12);
    AddedSlot(code.slots, b, Ins(low));
    ExecAddLow(env, Loader(env, code), AddressOf(code.base, b.size), reg, value, s);
    StepFall(env, code, b.size, Set(s, reg, PageOf(value)), AddedLow(s, reg, value));
    n := 1;
  }

  /** The state a far branch leaves: IP0 carried the target. */
  function Detour(s: State, from: U64, to: U64): State
  {
    if BranchReaches(from, to) then s else Set(s, IP0, to)
  }

  /** An emitted jump arrives at its target. */
  lemma EmitJumpRuns(env: Env, code: Code, b: Buf, literals: bool, to: U64, s: State) returns (n: nat)
    requires Placed(code) && |b.slots| == |code.slots| && to % 4 == 0
    requires EmitBranch(b, code.base, literals, to, false).Some?
    requires var b' := EmitBranch(b, code.base, literals, to, false).value; Intact(b') && Extends(code.slots, b')
    ensures Run(env, code, n, At(AddressOf(code.base, b.size), s)) == At(to, Detour(s, Pc(b, code.base), to))
  {
    var pc := Pc(b, code.base);
    if BranchReaches(pc, to) {
      NearField(code, b, to);
      AddedSlot(code.slots, b, Ins(B(InstrUtil.BranchField(pc, to))));
      StepGoto(env, code, b.size, s, to, s);
      n := 1;
    } else {
      n := FarJumpRuns(env, code, b, literals, to, s);
    }
  }

  lemma FarJumpRuns(env: Env, code: Code, b: Buf, literals: bool, to: U64, s: State) returns (n: nat)
    requires Placed(code) && |b.slots| == |code.slots| && !BranchReaches(Pc(b, code.base), to)
    requires EmitBranch(b, code.base, literals, to, false).Some?
    requires var b' := EmitBranch(b, code.base, literals, to, false).value; Intact(b') && Extends(code.slots, b')
    ensures Run(env, code, n, At(AddressOf(code.base, b.size), s)) == At(to, Set(s, IP0, to))
  {
    var moved := EmitMov(b, code.base, literals, IP0, to).value;
    AddGrows(moved, Ins(Br(IP0)));
    ExtendsEarlier(code.slots, moved, Add(moved, Ins(Br(IP0))).value);
    AddedSlot(code.slots, moved, Ins(Br(IP0)));
    var m := EmitMovSets(env, code, b, literals, IP0, to, s);
    StepGoto(env, code, moved.size, Set(s, IP0, to), to, Set(s, IP0, to));
    n := m + 1;
    RunsOn(env, code, m, 1, At(AddressOf(code.base, b.size), s), At(AddressOf(code.base, moved.size), Set(s, IP0, to)));
  }

  lemma NearField(code: Code, b: Buf, to: U64)
    requires Placed(code) && b.size <= |code.slots| && to % 4 == 0
    requires BranchReaches(Pc(b, code.base), to)
    ensures var pc := Pc(b, code.base); RelativeTarget(pc, InstrUtil.BranchField(pc, to), TWO26) == to
  {
    var pc := Pc(b, code.base);
    Addresses(code, b.size);
    InstrUtil.BranchFieldReaches(pc, to);
    DivModUnique(InstrUtil.BranchField(pc, to), TWO26, 0, InstrUtil.BranchField(pc, to));
  }

  /** An emitted call runs the callee and continues behind the emitted code. */
  lemma EmitCallRuns(env: Env, code: Code, b: Buf, literals: bool, to: U64, s: State) returns (n: nat, linked: State)
    requires Placed(code) && |b.slots| == |code.slots| && to % 4 == 0
    requires EmitBranch(b, code.base, literals, to, true).Some?
    requires var b' := EmitBranch(b, code.base, literals, to, true).value; Intact(b') && Extends(code.slots, b')
    ensures Run(env, code, n, At(AddressOf(code.base, b.size), s))
         == At(AddressOf(code.base, EmitBranch(b, code.base, literals, to, true).value.size), env.call(to, linked))
    ensures Agree(s, linked, LINKAGE)
  {
    var pc := Pc(b, code.base);
    if BranchReaches(pc, to) {
      NearField(code, b, to);
      AddedSlot(code.slots, b, Ins(Bl(InstrUtil.BranchField(pc, to))));
      linked := Set(s, LR, Wrap64(pc + 4));
      StepFall(env, code, b.size, s, env.call(to, linked));
      n := 1;
    } else {
      n := FarCallRuns(env, code, b, literals, to, s);
      linked := LinkedFar(code, EmitMov(b, code.base, literals, IP0, to).value, to, s);
    }
  }

  /** The state in which a far call enters its callee. */
  function LinkedFar(code: Code, moved: Buf, to: U64, s: State): State
  {
    Set(Set(s, IP0, to), LR, Wrap64(AddressOf(code.base, moved.size) + 4))
  }

  lemma FarCallRuns(env: Env, code: Code, b: Buf, literals: bool, to: U64, s: State) returns (n: nat)
    requires Placed(code) && |b.slots| == |code.slots| && !BranchReaches(Pc(b, code.base), to)
    requires EmitBranch(b, code.base, literals, to, true).Some?
    requires var b' := EmitBranch(b, code.base, literals, to, true).value; Intact(b') && Extends(code.slots, b')
    ensures Run(env, code, n, At(AddressOf(code.base, b.size), s))
         == At(AddressOf(code.base, EmitBranch(b, code.base, literals, to, true).value.size),
               env.call(to, LinkedFar(code, EmitMov(b, code.base, literals, IP0, to).value, to, s)))
  {
    var moved := EmitMov(b, code.base, literals, IP0, to).value;
    AddGrows(moved, Ins(Blr(IP0)));
    ExtendsEarlier(code.slots, moved, Add(moved, Ins(Blr(IP0))).value);
    AddedSlot(code.slots, moved, Ins(Blr(IP0)));
    var m := EmitMovSets(env, code, b, literals, IP0, to, s);
    var linked := LinkedFar(code, moved, to, s);
    StepFall(env, code, moved.size, Set(s, IP0, to), env.call(to, linked));
    RunCompose(env, code, m, 1, At(AddressOf(code.base, b.size), s));
    n := m + 1;
  }

  // ----- which form is chosen -----

  /** The values an ADR can form: up to one byte less than a mebibyte away in either direction. */
  predicate InAdrReach(pc: U64, value: U64) { -0xF_FFFF <= S64(pc - value) <= 0xF_FFFF }

  /** Those an ADRP and an ADD can: up to a page less than four gibibytes between the pages. */
  predicate InAdrpReach(pc: U64, value: U64)
  {
    -0xF_FFFF_000 <= S64(pc - pc % 0x1000 - (value - value % 0x1000)) <= 0xF_FFFF_000
  }

  function Differs(value: U64, pc: U64, i: nat): nat
    requires i < 4
  {
    if Chunk(value, i) != Chunk(pc, i) then 1 else 0
  }

  /** The words a move takes when nothing is near: one for each 16-bit chunk of the value that the
      address of the code does not have, and one to load that address if it helps with any. */
  function ChunkWords(value: U64, pc: U64): nat
  {
    var n := Differs(value, pc, 0) + Differs(value, pc, 1) + Differs(value, pc, 2) + Differs(value, pc, 3);
    if n < 4 then n + 1 else 4
  }

  lemma PageDistance(x: int)
    requires x % 0x1000 == 0
    ensures Abs(x) / 0x1000 <= 0xF_FFFF <==> -0xF_FFFF_000 <= x <= 0xF_FFFF_000
  {
  }

  lemma ReachesAdrp(pc: U64, value: U64)
    ensures AdrpReaches(pc, value) <==> InAdrpReach(pc, value)
  {
    var d := PageOf(pc) - PageOf(value);
    SignedPages(pc / 0x1000 - value / 0x1000);
    assert d == 0x1000 * (pc / 0x1000 - value / 0x1000);
    PageDistance(S64(d));
  }

  lemma SignedPages(n: int)
    ensures S64(0x1000 * n) % 0x1000 == 0
  {
    var x := 0x1000 * n;
    var q := x / TWO64;
    DivModUnique(x - TWO64 * q, 0x1000, n - 0x10_0000_0000_0000 * q, 0);
    DivModUnique(x - TWO64 * q - TWO64, 0x1000, n - 0x10_0000_0000_0000 * q - 0x10_0000_0000_0000, 0);
  }

  function Mismatches(value: U64, pc: U64, i: nat): nat
    requires i <= 4
    decreases 4 - i, value
  {
    if i == 4 then 0 else (if Chunk(value, i) == Chunk(pc, i) then 0 else 1) + Mismatches(value, pc, i + 1)
  }

  lemma {:induction false} MovksCount(b: Buf, reg: Reg, value: U64, pc: U64, i: nat, e: Buf)
    requires i <= 4 && EmitMovks(b, reg, value, pc, i) == Some(e)
    ensures e.size == b.size + Mismatches(value, pc, i)
    decreases 4 - i
  {
    if i < 4 {
      if Chunk(value, i) == Chunk(pc, i) {
        MovksCount(b, reg, value, pc, i + 1, e);
      } else {
        MovksCount(Add(b, Ins(Movk(reg, Chunk(value, i), i))).value, reg, value, pc, i + 1, e);
      }
    }
  }

  lemma MismatchesAre(value: U64, pc: U64)
    ensures Mismatches(value, pc, 0)
         == Differs(value, pc, 0) + Differs(value, pc, 1) + Differs(value, pc, 2) + Differs(value, pc, 3)
  {
    assert Mismatches(value, pc, 3) == Differs(value, pc, 3) + Mismatches(value, pc, 4);
    assert Mismatches(value, pc, 2) == Differs(value, pc, 2) + Mismatches(value, pc, 3);
    assert Mismatches(value, pc, 1) == Differs(value, pc, 1) + Mismatches(value, pc, 2);
  }

  lemma ChunksCount(b: Buf, rx: U64, reg: Reg, value: U64, e: Buf)
    requires EmitMovChunks(b, rx, reg, value) == Some(e)
    ensures e.size == b.size + ChunkWords(value, Pc(b, rx))
  {
    var pc := Pc(b, rx);
    MismatchesAre(value, pc);
    if SomeChunkMatches(value, pc) {
      MovksCount(Add(b, Ins(AdrFor(reg, pc, pc))).value, reg, value, pc, 0, e);
    } else {
      MovksCount(b, reg, value, pc, 0, e);
    }
  }

  /** Which form a move takes, and how many words: an ADR when it reaches the value, else an ADRP
      when that reaches the page, with an ADD unless the value is a page, else a literal load where
      literals are allowed, else chunk by chunk. */
  lemma MoveForm(b: Buf, rx: U64, literals: bool, reg: Reg, value: U64, e: Buf)
    requires EmitMov(b, rx, literals, reg, value) == Some(e) && Intact(e)
    ensures var pc := Pc(b, rx);
            if InAdrReach(pc, value) then e.size == b.size + 1 && e.slots[b.size] == Ins(AdrFor(reg, pc, value))
            else if InAdrpReach(pc, value) then
              && e.size == b.size + (if value % 0x1000 == 0 then 1 else 2)
              && e.slots[b.size] == Ins(AdrpFor(reg, pc, value))
            else if literals then e.size == b.size + 1 && e.slots[b.size].Ins? && e.slots[b.size].i.LdrLiteral?
            else e.size == b.size + ChunkWords(value, pc)
  {
    ReachesAdrp(Pc(b, rx), value);
    if !AdrReaches(Pc(b, rx), value) && !AdrpReaches(Pc(b, rx), value) && !literals {
      ChunksCount(b, rx, reg, value, e);
    }
  }

  /** A branch is one word exactly when its target is less than 128 mebibytes away; otherwise it is
      a move to IP0 and a branch there. */
  lemma BranchForm(b: Buf, rx: U64, literals: bool, to: U64, link: bool, e: Buf)
    requires EmitBranch(b, rx, literals, to, link) == Some(e)
    ensures var pc := Pc(b, rx);
            if -0x7FF_FFFF <= S64(to - pc) <= 0x7FF_FFFF then
              && e.size == b.size + 1 && e.slots[b.size].Ins?
              && (if link then e.slots[b.size].i.Bl? else e.slots[b.size].i.B?)
            else
              && e.slots[e.size - 1] == Ins(if link then Blr(IP0) else Br(IP0))
              && EmitMov(b, rx, literals, IP0, to).Some? && e.size == EmitMov(b, rx, literals, IP0, to).value.size + 1
  {
  }
}
