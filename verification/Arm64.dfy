/** The part of an AArch64 machine that relocated code can observe: the general registers,
    the stack pointer, the condition flags and memory, and the instructions of
    hakkun/include/hk/hook/a64/Instrs.h with their PC-relative operands as encoded fields. */
module Arm64 {
  import opened Words

  type Reg = r: nat | r < 32

  const IP0: Reg := 16
  const LR: Reg := 30
  /** Register number 31: XZR for most instructions, SP for ADD (immediate). */
  const ZR: Reg := 31

  datatype Flags = Flags(n: bool, z: bool, c: bool, v: bool)

  datatype State_ = State(x: seq<U64>, sp: U64, flags: Flags, mem: map<U64, U8>)
  type State = s: State_ | |s.x| == 31
    witness State(seq(31, _ => 0), 0, Flags(false, false, false, false), map[])

  function Get(s: State, r: Reg): U64 { if r == ZR then 0 else s.x[r] }

  function Set(s: State, r: Reg, v: U64): State { if r == ZR then s else s.(x := s.x[r := v]) }

  function GetOrSp(s: State, r: Reg): U64 { if r == ZR then s.sp else s.x[r] }

  function SetOrSp(s: State, r: Reg, v: U64): State
  {
    if r == ZR then s.(sp := v) else s.(x := s.x[r := v])
  }

  /** A position-independent instruction: an unknown operation on the registers it names. */
  datatype Operation = Operation(id: nat, uses: set<Reg>, defs: set<Reg>)

  datatype Inputs = Inputs(regs: map<Reg, U64>, sp: U64, flags: Flags, mem: map<U64, U8>)
  datatype Effect = Effect(regs: Reg -> U64, sp: U64, flags: Flags, mem: map<U64, U8>)

  /** What the model leaves open: the meaning of position-independent instructions, the
      functions that calls reach (they return to their caller), and instruction bit patterns. */
  datatype Env = Env(
    operate: (nat, Inputs) -> Effect,
    call: (U64, State) -> State,
    encode: Instr -> U32)

  datatype Instr =
    | Adr(rd: Reg, imm: nat)
    | Adrp(rd: Reg, imm: nat)
    | AddImm(rd: Reg, rn: Reg, imm: nat)
    | Movk(rd: Reg, imm16: U16, chunk: nat)
    | LdrLiteral(rd: Reg, imm: nat)
    | B(imm: nat)
    | Bl(imm: nat)
    | Br(rn: Reg)
    | Blr(rn: Reg)
    | Bcond(cond: nat, imm: nat)
    | Cb(onNonzero: bool, wide: bool, rt: Reg, imm: nat)
    | Tb(onNonzero: bool, bit: nat, rt: Reg, imm: nat)
    | Plain(op: Operation)

  datatype Control = Fall(s: State) | Goto(to: U64, s: State)

  /** Section C1.2.4 of the Arm Architecture Reference Manual. */
  predicate ConditionHolds(cond: nat, f: Flags)
  {
    var kind := cond / 2;
    var base :=
      if kind == 0 then f.z
      else if kind == 1 then f.c
      else if kind == 2 then f.n
      else if kind == 3 then f.v
      else if kind == 4 then f.c && !f.z
      else if kind == 5 then f.n == f.v
      else if kind == 6 then f.n == f.v && !f.z
      else true;
    if cond % 2 == 1 && kind < 7 then !base else base
  }

  /** A target `imm` instructions away, `imm` being a signed field of `modulus` values. */
  function RelativeTarget(pc: U64, imm: nat, modulus: nat): U64
    requires modulus > 0
  {
    Wrap64(pc + 4 * SignExtend(imm % modulus, modulus))
  }

  /** `v` with its 16-bit chunk number `chunk` replaced by `imm` (MOVK). */
  function InsertChunk(v: U64, imm: U16, chunk: nat): U64
  {
    FromChunks(
      if chunk == 0 then imm else Chunk(v, 0),
      if chunk == 1 then imm else Chunk(v, 1),
      if chunk == 2 then imm else Chunk(v, 2),
      if chunk == 3 then imm else Chunk(v, 3))
  }

  predicate CbTaken(onNonzero: bool, wide: bool, v: U64)
  {
    onNonzero == ((if wide then v else v % TWO32) != 0)
  }

  predicate TbTaken(onNonzero: bool, bit: nat, v: U64) { onNonzero == TestBit(v, bit) }

  function ReadInputs(uses: set<Reg>, s: State): Inputs
  {
    Inputs(map r: Reg | r in uses && r < 31 :: s.x[r], s.sp, s.flags, s.mem)
  }

  function DefinedValue(op: Operation, e: Effect, s: State, r: Reg): U64
    requires r < 31
  {
    if r in op.defs then e.regs(r) else s.x[r]
  }

  function Operate(env: Env, op: Operation, s: State): State
  {
    var e := env.operate(op.id, ReadInputs(op.uses, s));
    State(seq(31, i requires 0 <= i < 31 => DefinedValue(op, e, s, i)), e.sp, e.flags, e.mem)
  }

  /** One instruction at `pc`; `load` reads a 64-bit literal from code memory. */
  function Exec(env: Env, load: U64 -> U64, pc: U64, i: Instr, s: State): Control
  {
    match i
    case Adr(rd, imm) => Fall(Set(s, rd, Wrap64(pc + SignExtend(imm % TWO21, TWO21))))
    case Adrp(rd, imm) => Fall(Set(s, rd, Wrap64(PageOf(pc) + TWO12 * SignExtend(imm % TWO21, TWO21))))
    case AddImm(rd, rn, imm) => Fall(SetOrSp(s, rd, Wrap64(GetOrSp(s, rn) + imm)))
    case Movk(rd, imm16, chunk) => Fall(Set(s, rd, InsertChunk(Get(s, rd), imm16, chunk)))
    case LdrLiteral(rd, imm) => Fall(Set(s, rd, load(RelativeTarget(pc, imm, TWO19))))
    case B(imm) => Goto(RelativeTarget(pc, imm, TWO26), s)
    case Bl(imm) => Fall(env.call(RelativeTarget(pc, imm, TWO26), Set(s, LR, Wrap64(pc + 4))))
    case Br(rn) => Goto(Get(s, rn), s)
    case Blr(rn) => Fall(env.call(Get(s, rn), Set(s, LR, Wrap64(pc + 4))))
    case Bcond(cond, imm) =>
      if ConditionHolds(cond, s.flags) then Goto(RelativeTarget(pc, imm, TWO19), s) else Fall(s)
    case Cb(onNonzero, wide, rt, imm) =>
      if CbTaken(onNonzero, wide, Get(s, rt)) then Goto(RelativeTarget(pc, imm, TWO19), s) else Fall(s)
    case Tb(onNonzero, bit, rt, imm) =>
      if TbTaken(onNonzero, bit, Get(s, rt)) then Goto(RelativeTarget(pc, imm, TWO14), s) else Fall(s)
    case Plain(op) => Fall(Operate(env, op, s))
  }

  // ----- running code placed in memory -----

  datatype Slot = Ins(i: Instr) | Lit(word: U32)

  datatype Code = Code(base: U64, slots: seq<Slot>)

  ghost predicate Placed(code: Code)
  {
    code.base % 4 == 0 && code.base + 4 * |code.slots| < TWO64 && |code.slots| < TWO16
  }

  function AddressOf(base: U64, index: nat): U64 { Wrap64(base + 4 * index) }

  function WordOf(env: Env, slot: Slot): U32
  {
    match slot
    case Ins(i) => env.encode(i)
    case Lit(word) => word
  }

  /** The 64-bit little-endian value at `a` in code memory. */
  function LoadCode(env: Env, code: Code, a: U64): U64
  {
    var k := (a - code.base) / 4;
    if code.base <= a && k + 1 < |code.slots| then
      WordOf(env, code.slots[k]) + TWO32 * WordOf(env, code.slots[k + 1])
    else 0
  }

  function Loader(env: Env, code: Code): U64 -> U64 { a => LoadCode(env, code, a) }

  datatype Config = At(pc: U64, s: State) | Fault

  function Step(env: Env, code: Code, c: Config): Config
  {
    if c.Fault? || c.pc < code.base || (c.pc - code.base) % 4 != 0 then Fault
    else
      var k := (c.pc - code.base) / 4;
      if k >= |code.slots| || code.slots[k].Lit? then Fault
      else match Exec(env, Loader(env, code), c.pc, code.slots[k].i, c.s)
        case Fall(s) => At(Wrap64(c.pc + 4), s)
        case Goto(to, s) => At(to, s)
  }

  function Run(env: Env, code: Code, n: nat, c: Config): Config
  {
    if n == 0 then c else Run(env, code, n - 1, Step(env, code, c))
  }

  lemma {:induction false} RunCompose(env: Env, code: Code, m: nat, n: nat, c: Config)
    ensures Run(env, code, m + n, c) == Run(env, code, n, Run(env, code, m, c))
    decreases m
  {
    if m > 0 {
      RunCompose(env, code, m - 1, n, Step(env, code, c));
    }
  }

  // ----- states that differ only in some registers -----

  predicate Agree(s: State, t: State, dirty: set<Reg>)
  {
    && s.sp == t.sp && s.flags == t.flags && s.mem == t.mem
    && forall r: nat :: r < 31 && r !in dirty ==> s.x[r] == t.x[r]
  }

  const LINKAGE: set<Reg> := {IP0, LR}

  /** Called functions take nothing from the link register but their return address, and may
      lose IP0: the procedure call standard lets a veneer between caller and callee use it. */
  ghost predicate CallsRespectLinkage(env: Env)
  {
    forall to: U64, s: State, t: State :: Agree(s, t, LINKAGE) ==> Agree(env.call(to, s), env.call(to, t), LINKAGE)
  }

  lemma OperateAgrees(env: Env, op: Operation, s: State, t: State, dirty: set<Reg>)
    requires Agree(s, t, dirty) && op.uses !! dirty
    ensures Agree(Operate(env, op, s), Operate(env, op, t), dirty - op.defs)
  {
    assert ReadInputs(op.uses, s) == ReadInputs(op.uses, t);
  }
}
