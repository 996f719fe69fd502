/** The emitter as it runs: it appends to a vector over memory it does not own, and takes
    words from the end of that vector for literals. */
module EmitterCode {
  import opened Words
  import opened Arm64
  import opened Emitter
  import opened Options
  import InstrUtil

  /** `VecSpan`: a vector over memory it does not own. */
  class VecSpan {
    var data: array<Slot>
    var size: nat
    var capacity: nat

    ghost predicate Valid()
      reads this
    {
      size <= capacity <= data.Length
    }

    ghost function Contents(): Buf
      reads this, data
      requires Valid()
    {
      Buf(data[..], size, capacity)
    }

    constructor (memory: array<Slot>)
      ensures Valid() && data == memory && Contents() == Buf(memory[..], 0, memory.Length)
    {
      data, size, capacity := memory, 0, memory.Length;
    }

    method TryAdd(slot: Slot) returns (ok: bool)
      requires Valid()
      modifies this, data
      ensures Valid() && data == old(data)
      ensures ok == Add(old(Contents()), slot).Some?
      ensures ok ==> Contents() == Add(old(Contents()), slot).value
    {
      if size >= capacity {
        return false;
      }
      data[size] := slot;
      size := size + 1;
      return true;
    }
  }

  class PseudoInstructionEmitter {
    const out: VecSpan
    const rx: U64
    const literals: bool

    constructor (out: VecSpan, rx: U64, literals: bool)
      ensures this.out == out && this.rx == rx && this.literals == literals
    {
      this.out, this.rx, this.literals := out, rx, literals;
    }

    method CurrentRxAddress() returns (pc: U64)
      requires out.Valid()
      ensures pc == Pc(out.Contents(), rx)
    {
      pc := AddressOf(rx, out.size);
    }

    method EmitMovks(reg: Reg, value: U64, pc: U64) returns (ok: bool)
      requires out.Valid()
      modifies out, out.data
      ensures out.Valid() && out.data == old(out.data)
      ensures ok == Emitter.EmitMovks(old(out.Contents()), reg, value, pc, 0).Some?
      ensures ok ==> out.Contents() == Emitter.EmitMovks(old(out.Contents()), reg, value, pc, 0).value
    {
      var i := 0;
      while i < 4
        invariant i <= 4 && out.Valid() && out.data == old(out.data)
        invariant Emitter.EmitMovks(out.Contents(), reg, value, pc, i)
               == Emitter.EmitMovks(old(out.Contents()), reg, value, pc, 0)
      {
        if Chunk(value, i) != Chunk(pc, i) {
          var added := out.TryAdd(Ins(Movk(reg, Chunk(value, i), i)));
          if !added {
            return false;
          }
        }
        i := i + 1;
      }
      return true;
    }

    method EmitMovImmediate64(reg: Reg, value: U64) returns (ok: bool)
      requires out.Valid()
      modifies out, out.data
      ensures out.Valid() && out.data == old(out.data)
      ensures ok == EmitMov(old(out.Contents()), rx, literals, reg, value).Some?
      ensures ok ==> out.Contents() == EmitMov(old(out.Contents()), rx, literals, reg, value).value
    {
      var pc := CurrentRxAddress();
      if AdrReaches(pc, value) {
        ok := out.TryAdd(Ins(AdrFor(reg, pc, value)));
      } else if AdrpReaches(pc, value) {
        ok := out.TryAdd(Ins(AdrpFor(reg, pc, value)));
        if ok && value % TWO12 != 0 {
          ok := out.TryAdd(Ins(AddImm(reg, reg, value % TWO12)));
        }
      } else if literals {
        ok := EmitLiteral(reg, value);
      } else {
        ok := true;
        if SomeChunkMatches(value, pc) {
          ok := out.TryAdd(Ins(AdrFor(reg, pc, pc)));
        }
        if ok {
          ok := EmitMovks(reg, value, pc);
        }
      }
    }

    method EmitLiteral(reg: Reg, value: U64) returns (ok: bool)
      requires out.Valid()
      modifies out, out.data
      ensures out.Valid() && out.data == old(out.data)
      ensures ok == EmitMovLiteral(old(out.Contents()), rx, reg, value).Some?
      ensures ok ==> out.Contents() == EmitMovLiteral(old(out.Contents()), rx, reg, value).value
    {
      if out.capacity - out.size < 3 {
        return false;
      }
      var pc := CurrentRxAddress();
      var at := out.capacity - 3;
      var field := ForwardField(pc, AddressOf(rx, at), TWO19);
      if field.None? {
        return false;
      }
      ok := out.TryAdd(Ins(LdrLiteral(reg, field.value)));
      out.data[at] := Lit(value % TWO32);
      out.data[at + 1] := Lit(value / TWO32);
      out.capacity := out.capacity - 2;
    }

    method EmitBranch(to: U64, link: bool) returns (ok: bool)
      requires out.Valid()
      modifies out, out.data
      ensures out.Valid() && out.data == old(out.data)
      ensures ok == Emitter.EmitBranch(old(out.Contents()), rx, literals, to, link).Some?
      ensures ok ==> out.Contents() == Emitter.EmitBranch(old(out.Contents()), rx, literals, to, link).value
    {
      var from := CurrentRxAddress();
      if BranchReaches(from, to) {
        var field := InstrUtil.BranchField(from, to);
        ok := out.TryAdd(Ins(if link then Bl(field) else B(field)));
      } else {
        ok := EmitMovImmediate64(IP0, to);
        if ok {
          ok := out.TryAdd(Ins(if link then Blr(IP0) else Br(IP0)));
        }
      }
    }
  }
}
