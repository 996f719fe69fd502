/** `PseudoInstructionEmitter` of hakkun/include/hk/hook/a64/Assembler.h: moves a 64-bit value
    into a register or branches to any address, over a vector whose tail can hold literals. */
module Emitter {
  import opened Words
  import opened Arm64
  import InstrUtil
  import opened Options

  /** The vector being filled: `size` words are code, and words from `cap` on are out of reach. */
  datatype Buf_ = Buf(slots: seq<Slot>, size: nat, cap: nat)
  type Buf = b: Buf_ | b.size <= b.cap <= |b.slots| witness Buf([], 0, 0)

  const ADR_REACH: nat := 0xF_FFFF
  const BRANCH_REACH: nat := 0x7FF_FFFF

  /** `VecSpan::add`: aborts when full. */
  function Add(b: Buf, slot: Slot): (r: Option<Buf>)
  {
    if b.size < b.cap then Some(Buf(b.slots[b.size := slot], b.size + 1, b.cap)) else None
  }

  function Pc(b: Buf, rx: U64): U64 { AddressOf(rx, b.size) }

  /** The assembler's imm19 and imm14: a logical shift of the unsigned distance, checked. */
  function ForwardField(pc: U64, to: U64, modulus: nat): (r: Option<nat>)
    ensures r.Some? ==> r.value < modulus
    ensures r.None? ==> Wrap64(to - (pc - pc % 4)) >= 4 * modulus
  {
    var diff := Wrap64(to - (pc - pc % 4)) / 4;
    if diff < modulus then Some(diff) else None
  }

  predicate AdrReaches(pc: U64, value: U64) { Abs(S64(pc - value)) <= ADR_REACH }

  predicate AdrpReaches(pc: U64, value: U64)
  {
    Abs(S64(PageOf(pc) - PageOf(value))) / TWO12 <= ADR_REACH
  }

  function AdrFor(reg: Reg, pc: U64, value: U64): Instr { Adr(reg, (value - pc) % TWO21) }

  function AdrpFor(reg: Reg, pc: U64, value: U64): Instr
  {
    Adrp(reg, S64(PageOf(value) - PageOf(pc)) / TWO12 % TWO21)
  }

  /** `emitMovImmediate64` for buffers that may carry literals. A literal takes the two words
      before the last one still in reach; the reach then shrinks by two. */
  function EmitMovLiteral(b: Buf, rx: U64, reg: Reg, value: U64): Option<Buf>
  {
    if b.cap - b.size < 3 then None
    else
      var at := b.cap - 3;
      var field :- ForwardField(Pc(b, rx), AddressOf(rx, at), TWO19);
      var added :- Add(b, Ins(LdrLiteral(reg, field)));
      Some(Buf(added.slots[at := Lit(value % TWO32)][at + 1 := Lit(value / TWO32)], added.size, b.cap - 2))
  }

  function EmitMovNear(b: Buf, rx: U64, reg: Reg, value: U64): Option<Buf>
  {
    var adrp :- Add(b, Ins(AdrpFor(reg, Pc(b, rx), value)));
    if value % TWO12 != 0 then Add(adrp, Ins(AddImm(reg, reg, value % TWO12))) else Some(adrp)
  }

  /** `emitMovImmediate64` for plain code: ADR to itself when some chunk of the address already
      matches, then MOVK for every chunk from `i` on that does not. */
  function EmitMovks(b: Buf, reg: Reg, value: U64, pc: U64, i: nat): (r: Option<Buf>)
    requires i <= 4
    ensures r.Some? ==> r.value.size >= b.size
    decreases 4 - i, |b.slots|
  {
    if i == 4 then Some(b)
    else if Chunk(value, i) == Chunk(pc, i) then EmitMovks(b, reg, value, pc, i + 1)
    else
      var next :- Add(b, Ins(Movk(reg, Chunk(value, i), i)));
      EmitMovks(next, reg, value, pc, i + 1)
  }

  predicate SomeChunkMatches(value: U64, pc: U64) { exists i :: 0 <= i < 4 && Chunk(value, i) == Chunk(pc, i) }

  function EmitMovChunks(b: Buf, rx: U64, reg: Reg, value: U64): Option<Buf>
  {
    var pc := Pc(b, rx);
    var start :- if SomeChunkMatches(value, pc) then Add(b, Ins(AdrFor(reg, pc, pc))) else Some(b);
    EmitMovks(start, reg, value, pc, 0)
  }

  function EmitMov(b: Buf, rx: U64, literals: bool, reg: Reg, value: U64): (r: Option<Buf>)
    ensures r.Some? ==> b.size <= r.value.size && (literals ==> r.value.size <= b.size + 2)
  {
    var pc := Pc(b, rx);
    if AdrReaches(pc, value) then Add(b, Ins(AdrFor(reg, pc, value)))
    else if AdrpReaches(pc, value) then EmitMovNear(b, rx, reg, value)
    else if literals then EmitMovLiteral(b, rx, reg, value)
    else EmitMovChunks(b, rx, reg, value)
  }

  /** The distance test of `emitBranch`. */
  predicate BranchReaches(pc: U64, to: U64) { Abs(S64(to - pc)) <= BRANCH_REACH }

  function EmitBranch(b: Buf, rx: U64, literals: bool, to: U64, link: bool): (r: Option<Buf>)
    ensures r.Some? ==> b.size < r.value.size && (literals ==> r.value.size <= b.size + 3)
  {
    var pc := Pc(b, rx);
    if BranchReaches(pc, to) then
      var field := InstrUtil.BranchField(pc, to);
      Add(b, Ins(if link then Bl(field) else B(field)))
    else
      var moved :- EmitMov(b, rx, literals, IP0, to);
      Add(moved, Ins(if link then Blr(IP0) else Br(IP0)))
  }
}
