/** `makeTrampolineBackup` and the jump `TrampolineStaticBase::installAtOffset` writes, as
    code that fills a vector. */
module TrampolineCode {
  import opened Words
  import opened Arm64
  import opened Emitter
  import opened EmitterCode
  import opened Options
  import opened Trampoline

  class Relocator {
    const out: VecSpan
    const emitter: PseudoInstructionEmitter
    var skipReturn: bool

    ghost predicate Valid()
      reads this, out
    {
      emitter.out == out && emitter.literals && out.Valid()
    }

    constructor (out: VecSpan, rx: U64)
      requires out.Valid()
      ensures Valid() && this.out == out && emitter.rx == rx && !skipReturn
    {
      this.out := out;
      emitter := new PseudoInstructionEmitter(out, rx, true);
      skipReturn := false;
    }

    /** A slot is reserved, the branch emitted, and the slot patched with the opposite test. */
    method RelocateConditional(i: Instr, pc: U64) returns (ok: bool)
      requires Valid() && IsConditional(i)
      modifies out, out.data
      ensures Valid() && out.data == old(out.data)
      ensures ok == Trampoline.RelocateConditional(old(out.Contents()), emitter.rx, i, pc).Some?
      ensures ok ==> out.Contents() == Trampoline.RelocateConditional(old(out.Contents()), emitter.rx, i, pc).value
    {
      var idx := out.size;
      var testPc := emitter.CurrentRxAddress();
      ok := out.TryAdd(Lit(0));
      if ok {
        ok := emitter.EmitBranch(TargetOf(i, pc), false);
        if ok {
          var behind := emitter.CurrentRxAddress();
          var patch := Inverted(i, testPc, behind);
          if patch.None? {
            return false;
          }
          out.data[idx] := Ins(patch.value);
        }
      }
    }

    method Relocate(i: Instr, pc: U64, isLast: bool) returns (ok: bool)
      requires Valid()
      modifies this, out, out.data
      ensures Valid() && out.data == old(out.data)
      ensures ok == Trampoline.Relocate(old(out.Contents()), emitter.rx, i, pc, isLast).Some?
      ensures ok ==> out.Contents() == Trampoline.Relocate(old(out.Contents()), emitter.rx, i, pc, isLast).value
      ensures ok ==> skipReturn == (old(skipReturn) || i.B?)
    {
      if i.Adr? || i.Adrp? {
        ok := emitter.EmitMovImmediate64(i.rd, FormedAddress(i, pc));
      } else if i.B? || i.Bl? {
        if i.B? {
          if !isLast {
            return false;
          }
          skipReturn := true;
        }
        ok := emitter.EmitBranch(TargetOf(i, pc), i.Bl?);
      } else if IsConditional(i) {
        if !isLast {
          return false;
        }
        ok := RelocateConditional(i, pc);
      } else if i.LdrLiteral? {
        return false;
      } else {
        ok := out.TryAdd(Ins(i));
      }
    }
  }

  lemma OneInstruction(b: Buf, rx: U64, orig: seq<Instr>, addr: U64, returnTo: U64, k: nat)
    requires k < |orig|
    ensures var next := Trampoline.Relocate(b, rx, orig[k], AddressOf(addr, k), k == |orig| - 1);
            RelocateFrom(b, rx, orig, addr, returnTo, k)
              == if next.Some? then RelocateFrom(next.value, rx, orig, addr, returnTo, k + 1) else None
  {
  }

  /** Fills `out` with the backup of `orig`; `ok` is false where the original aborts. */
  method MakeTrampolineBackup(orig: seq<Instr>, origAddr: U64, returnAddr: U64, out: VecSpan, rx: U64)
    returns (ok: bool)
    requires out.Valid() && out.Contents() == EmptyBuf(out.data.Length)
    modifies out, out.data
    ensures out.Valid() && out.data == old(out.data)
    ensures ok == MakeBackup(orig, origAddr, returnAddr, out.data.Length, rx).Some?
    ensures ok ==> out.Contents() == MakeBackup(orig, origAddr, returnAddr, out.data.Length, rx).value
  {
    if (origAddr - returnAddr) % 4 != 0 {
      return false;
    }
    var relocator := new Relocator(out, rx);
    var i := 0;
    while i < |orig|
      invariant i <= |orig| && fresh(relocator) && relocator.out == out && relocator.emitter.rx == rx
      invariant relocator.Valid() && out.data == old(out.data)
      invariant relocator.skipReturn == (exists j :: 0 <= j < i && orig[j].B?)
      invariant forall j :: 0 <= j < i && orig[j].B? ==> j == |orig| - 1
      invariant RelocateFrom(out.Contents(), rx, orig, origAddr, returnAddr, i)
             == MakeBackup(orig, origAddr, returnAddr, out.data.Length, rx)
    {
      ghost var before := out.Contents();
      ok := relocator.Relocate(orig[i], AddressOf(origAddr, i), i == |orig| - 1);
      OneInstruction(before, rx, orig, origAddr, returnAddr, i);
      if !ok {
        return;
      }
      i := i + 1;
    }
    ok := true;
    if !relocator.skipReturn {
      ok := relocator.emitter.EmitBranch(returnAddr, false);
    }
  }
}
