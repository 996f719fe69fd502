/** An installed trampoline hook (`TrampolineStaticBase::installAtOffset` in
    hakkun/src/hk/hook/Trampoline.cpp): the jump it writes and the backup it makes belong together. */
module TrampolineHook {
  import opened Words
  import opened Arm64
  import opened Emitter
  import opened EmitterProof
  import opened Options
  import opened Trampoline
  import opened TrampolineProof
  import opened TrampolineLimits
  import InstrUtil

  /** The code at `at` begins with the jump to `hook`, and the instructions the jump overwrote,
      as many as it has words, are in the backup. */
  ghost predicate Installed(hooked: Code, jump: Buf, hook: U64, orig: seq<Instr>, backup: Code, b: Buf)
  {
    && Placed(hooked) && |hooked.slots| == OVERWRITE_WORDS && hook % 4 == 0
    && EmitBranch(EmptyBuf(OVERWRITE_WORDS), hooked.base, false, hook, false) == Some(jump)
    && |jump.slots| == |hooked.slots| && hooked.slots[..jump.size] == jump.slots[..jump.size]
    && |orig| == jump.size
    && Backup(orig, hooked.base, |b.slots|, backup.base) == Some(b) && b.slots == backup.slots && Intact(b)
    && WellPlaced(backup, orig, hooked.base)
  }

  /** A hook that only calls its backup makes no difference. Entering the hooked code in state `s`
      arrives at the hook; when the hook goes on to the backup, as `passOn` with at most IP0 changed,
      the run leaves to where the overwritten instructions would have left, in a state that
      differs from theirs in IP0 and, after a call, in the link register. That holds for
      instructions that take nothing from IP0, which the jump may change. */
  lemma HookedRunsOriginal(
      env: Env, hooked: Code, jump: Buf, hook: U64, orig: seq<Instr>, backup: Code, b: Buf, s: State,
      passOn: State -> State)
    returns (n: nat, m: nat, to: U64, t: State)
    requires Installed(hooked, jump, hook, orig, backup, b)
    requires CallsRespectLinkage(env) && Accepted(orig, 0, {IP0})
    requires StackSafe(EmptyBuf(|b.slots|), backup.base, orig, hooked.base, 0)
    requires forall h: State :: Agree(h, passOn(h), {IP0})
    ensures Run(env, hooked, n, At(hooked.base, s)) == At(hook, Detour(s, hooked.base, hook))
    ensures Run(env, backup, m, At(backup.base, passOn(Detour(s, hooked.base, hook)))) == At(to, t)
    ensures Faithful(env, orig, hooked.base, backup, s, to, t)
  {
    n := HookJumpArrives(env, hooked, jump, hook, s);
    var h := Detour(s, hooked.base, hook);
    assert Agree(h, passOn(h), {IP0}) && Agree(s, passOn(h), {IP0});
    m, to, t := EnteredIsFaithful(env, orig, hooked.base, backup, b, s, passOn(h));
  }

  // ----- literal loads that are copied -----

  /** Load register (literal): section C4.1 of the Arm Architecture Reference Manual. */
  predicate IsLoadLiteral(w: U32) { w / 0x800_0000 % 8 == 3 && w / 0x100_0000 % 4 == 0 }

  /** The pattern the relocator refuses. */
  predicate IsRefused(w: U32)
  {
    w / 0x8000_0000 % 2 == 0 && w / 0x800_0000 % 8 == 3 && w / 0x100_0000 % 8 == 0
  }

  function LiteralField(w: U32): nat { w / 0x20 % TWO19 }

  /** Of the literal loads, LDRSW, PRFM and those into SIMD registers are not refused but copied.
      A copied one reads from the original's address only where it has not moved. */
  lemma CopiedLiteralMoves(w: U32, pc: U64, at: U64)
    requires IsLoadLiteral(w)
    ensures !IsRefused(w) <==> w / 0x8000_0000 % 2 == 1 || w / 0x400_0000 % 2 == 1
    ensures RelativeTarget(at, LiteralField(w), TWO19) == RelativeTarget(pc, LiteralField(w), TWO19) <==> at == pc
  {
    ShiftedEqual(at, pc, 4 * SignExtend(LiteralField(w) % TWO19, TWO19));
  }

  lemma ShiftedEqual(a: U64, b: U64, d: int)
    ensures Wrap64(a + d) == Wrap64(b + d) <==> a == b
  {
    if a > b {
      InstrUtil.WrapDiffers(b + d, a - b);
    } else if a < b {
      InstrUtil.WrapDiffers(a + d, b - a);
    }
  }
}
