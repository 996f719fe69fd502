/** `makeTrampolineBackup` of hakkun/src/hk/hook/Trampoline.cpp: the instructions a hook
    overwrites are moved into a buffer where they must do what they did in place. */
module Trampoline {
  import opened Words
  import opened Arm64
  import opened Emitter
  import opened Options

  /** The absolute target of a branch in place (grabBBLAddr and its siblings). */
  function TargetOf(i: Instr, pc: U64): U64
    requires i.B? || i.Bl? || i.Bcond? || i.Cb? || i.Tb?
  {
    match i
    case B(imm) => RelativeTarget(pc, imm, TWO26)
    case Bl(imm) => RelativeTarget(pc, imm, TWO26)
    case Bcond(_, imm) => RelativeTarget(pc, imm, TWO19)
    case Cb(_, _, _, imm) => RelativeTarget(pc, imm, TWO19)
    case Tb(_, _, _, imm) => RelativeTarget(pc, imm, TWO14)
  }

  /** The address ADR and ADRP form in place (grabAdrAdrpAddr). */
  function FormedAddress(i: Instr, pc: U64): U64
    requires i.Adr? || i.Adrp?
  {
    match i
    case Adr(_, imm) => Wrap64(pc + SignExtend(imm % TWO21, TWO21))
    case Adrp(_, imm) => Wrap64(PageOf(pc) + TWO12 * SignExtend(imm % TWO21, TWO21))
  }

  predicate IsConditional(i: Instr) { i.Bcond? || i.Cb? || i.Tb? }

  function FlipCondition(cond: nat): nat { if cond % 2 == 0 then cond + 1 else cond - 1 }

  /** The opposite test of a conditional branch, aimed at `to`. The register operand is passed
      on without its width, so the compare form always tests all 64 bits. */
  function Inverted(i: Instr, pc: U64, to: U64): Option<Instr>
    requires IsConditional(i)
  {
    match i
    case Bcond(cond, _) =>
      var field :- ForwardField(pc, to, TWO19);
      Some(Bcond(FlipCondition(cond), field))
    case Cb(onNonzero, _, rt, _) =>
      var field :- ForwardField(pc, to, TWO19);
      Some(Cb(!onNonzero, true, rt, field))
    case Tb(onNonzero, bit, rt, _) =>
      var field :- ForwardField(pc, to, TWO14);
      Some(Tb(!onNonzero, bit, rt, field))
  }

  /** A conditional branch: a slot is reserved, the far branch emitted, and the slot patched
      with the opposite test jumping over it. */
  function RelocateConditional(b: Buf, rx: U64, i: Instr, pc: U64): Option<Buf>
    requires IsConditional(i)
  {
    var reserved :- Add(b, Lit(0));
    var branched :- EmitBranch(reserved, rx, true, TargetOf(i, pc), false);
    var patch :- Inverted(i, Pc(b, rx), Pc(branched, rx));
    Some(Buf(branched.slots[b.size := Ins(patch)], branched.size, branched.cap))
  }

  /** The `relocate` lambda, for one instruction. */
  function Relocate(b: Buf, rx: U64, i: Instr, pc: U64, isLast: bool): Option<Buf>
  {
    if i.Adr? || i.Adrp? then EmitMov(b, rx, true, i.rd, FormedAddress(i, pc))
    else if i.B? then if isLast then EmitBranch(b, rx, true, TargetOf(i, pc), false) else None
    else if i.Bl? then EmitBranch(b, rx, true, TargetOf(i, pc), true)
    else if IsConditional(i) then if isLast then RelocateConditional(b, rx, i, pc) else None
    else if i.LdrLiteral? then None
    else Add(b, Ins(i))
  }

  /** The loop from instruction `k` on, then the jump back unless a B was relocated. */
  function RelocateFrom(b: Buf, rx: U64, orig: seq<Instr>, addr: U64, returnTo: U64, k: nat): Option<Buf>
    requires k <= |orig|
    decreases |orig| - k
  {
    if k == |orig| then
      if k > 0 && orig[k - 1].B? then Some(b) else EmitBranch(b, rx, true, returnTo, false)
    else
      var next :- Relocate(b, rx, orig[k], AddressOf(addr, k), k == |orig| - 1);
      RelocateFrom(next, rx, orig, addr, returnTo, k + 1)
  }

  function EmptyBuf(capacity: nat): Buf { Buf(seq(capacity, _ => Lit(0)), 0, capacity) }

  function MakeBackup(orig: seq<Instr>, addr: U64, returnTo: U64, capacity: nat, rx: U64): Option<Buf>
  {
    if (addr - returnTo) % 4 != 0 then None
    else RelocateFrom(EmptyBuf(capacity), rx, orig, addr, returnTo, 0)
  }

  // ----- running the instructions in place -----

  datatype Exit = Exit(to: U64, s: State)

  /** In place, from instruction `k` on, until a branch is taken or the last one falls through. */
  function InPlace(env: Env, load: U64 -> U64, orig: seq<Instr>, addr: U64, k: nat, s: State): Exit
    requires k <= |orig|
    decreases |orig| - k
  {
    if k == |orig| then Exit(AddressOf(addr, k), s)
    else match Exec(env, load, AddressOf(addr, k), orig[k], s)
      case Goto(to, s') => Exit(to, s')
      case Fall(s') => InPlace(env, load, orig, addr, k + 1, s')
  }
}
