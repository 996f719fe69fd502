/** The trampoline does what the overwritten instructions did in place. */
module TrampolineProof {
  import opened Words
  import opened Arm64
  import opened Emitter
  import opened EmitterProof
  import opened Options
  import opened Trampoline
  import InstrUtil

  // ----- which instruction lists keep their meaning -----

  /** The registers an instruction takes its behaviour from. */
  function Uses(i: Instr): set<Reg>
  {
    match i
    case AddImm(_, rn, _) => {rn}
    case Movk(rd, _, _) => {rd}
    case Br(rn) => {rn}
    case Blr(rn) => {rn}
    case Cb(_, _, rt, _) => {rt}
    case Tb(_, _, rt, _) => {rt}
    case Plain(op) => op.uses
    case _ => {}
  }

  /** The registers that may differ from the in-place run after `i`, given those before it. */
  function DirtyAfter(i: Instr, dirty: set<Reg>): set<Reg>
  {
    match i
    case Adr(rd, _) => dirty - {rd}
    case Adrp(rd, _) => dirty - {rd}
    case AddImm(rd, _, _) => dirty - {rd}
    case Movk(rd, _, _) => dirty - {rd}
    case Bl(_) => dirty + LINKAGE
    case Blr(_) => dirty + LINKAGE
    case Plain(op) => dirty - op.defs
    case _ => dirty
  }

  /** No instruction depends on a register that an earlier call may have changed. */
  predicate Accepted(orig: seq<Instr>, k: nat, dirty: set<Reg>)
    requires k <= |orig|
    decreases |orig| - k
  {
    k < |orig| ==>
      && Uses(orig[k]) !! dirty
      && Accepted(orig, k + 1, DirtyAfter(orig[k], dirty))
  }

  /** Relocated to `at`, an address formed in register 31 does not move the stack pointer. */
  predicate KeepsStack(i: Instr, pc: U64, at: U64)
  {
    i.Adr? || i.Adrp? ==> i.rd != ZR || !MovesStack(at, FormedAddress(i, pc))
  }

  /** The same of every instruction from `k` on, each where its relocated code starts. */
  predicate StackSafe(b: Buf, rx: U64, orig: seq<Instr>, addr: U64, k: nat)
    requires k <= |orig|
    decreases |orig| - k
  {
    k < |orig| ==>
      && KeepsStack(orig[k], AddressOf(addr, k), Pc(b, rx))
      && var next := Relocate(b, rx, orig[k], AddressOf(addr, k), k == |orig| - 1);
         next.Some? ==> StackSafe(next.value, rx, orig, addr, k + 1)
  }

  predicate IsCall(i: Instr) { i.Bl? || i.Blr? }

  /** What a trampoline may leave different: IP0, and the link register if it makes a call. */
  function Lost(orig: seq<Instr>): set<Reg>
  {
    if exists k :: 0 <= k < |orig| && IsCall(orig[k]) then LINKAGE else {IP0}
  }

  /** The branch test of a conditional. */
  predicate Taken(i: Instr, s: State)
    requires IsConditional(i)
  {
    match i
    case Bcond(cond, _) => ConditionHolds(cond, s.flags)
    case Cb(onNonzero, wide, rt, _) => CbTaken(onNonzero, wide, Get(s, rt))
    case Tb(onNonzero, bit, rt, _) => TbTaken(onNonzero, bit, Get(s, rt))
  }

  /** Inverting the test of `i` works on state `s`: B.AL and B.NV have no opposite, and a
      32-bit compare is widened to 64 bits. */
  predicate Invertible(i: Instr, s: State)
    requires IsConditional(i)
  {
    match i
    case Bcond(cond, _) => cond < 14
    case Cb(_, wide, rt, _) => wide || Get(s, rt) % TWO32 != 0 || Get(s, rt) == 0
    case Tb(_, _, _, _) => true
  }

  /** The emitted opposite test decides against `i` exactly on the states `Invertible` names. */
  lemma InvertedTest(i: Instr, pc: U64, to: U64, s: State)
    requires IsConditional(i) && Inverted(i, pc, to).Some?
    ensures Taken(Inverted(i, pc, to).value, s) <==> (Taken(i, s) <==> !Invertible(i, s))
  {
    if i.Bcond? {
      FlippedCondition(i.cond, s.flags);
    }
  }

  lemma FlippedCondition(cond: nat, f: Flags)
    ensures ConditionHolds(FlipCondition(cond), f) == !ConditionHolds(cond, f) <==> cond < 14
  {
    assert FlipCondition(cond) / 2 == cond / 2;
  }

  /** The in-place run, except that a conditional branches when its relocated form does. */
  function RelocatedExit(env: Env, load: U64 -> U64, orig: seq<Instr>, addr: U64, k: nat, s: State): Trampoline.Exit
    requires k <= |orig|
    decreases |orig| - k
  {
    if k == |orig| then Exit(AddressOf(addr, k), s)
    else if IsConditional(orig[k]) then
      if Taken(orig[k], s) == Invertible(orig[k], s) then Exit(TargetOf(orig[k], AddressOf(addr, k)), s)
      else RelocatedExit(env, load, orig, addr, k + 1, s)
    else match Exec(env, load, AddressOf(addr, k), orig[k], s)
      case Goto(to, s') => Exit(to, s')
      case Fall(s') => RelocatedExit(env, load, orig, addr, k + 1, s')
  }

  lemma RelocatedExitOfLast(env: Env, load: U64 -> U64, orig: seq<Instr>, addr: U64, s: State)
    requires |orig| > 0 && IsConditional(orig[|orig| - 1])
    ensures RelocatedExit(env, load, orig, addr, |orig| - 1, s)
         == Trampoline.Exit(
              if Taken(orig[|orig| - 1], s) == Invertible(orig[|orig| - 1], s)
              then TargetOf(orig[|orig| - 1], AddressOf(addr, |orig| - 1)) else AddressOf(addr, |orig|), s)
  {
  }

  predicate OnlyLastConditional(orig: seq<Instr>) { forall k :: 0 <= k < |orig| - 1 ==> !IsConditional(orig[k]) }

  /** If control reaches a conditional, its test is invertible there, or does not matter. */
  predicate TestCarriesOver(env: Env, load: U64 -> U64, orig: seq<Instr>, addr: U64, k: nat, s: State)
    requires k <= |orig|
    decreases |orig| - k
  {
    k < |orig| ==>
      if IsConditional(orig[k]) then
        Invertible(orig[k], s) || TargetOf(orig[k], AddressOf(addr, k)) == AddressOf(addr, k + 1)
      else match Exec(env, load, AddressOf(addr, k), orig[k], s)
        case Goto(_, _) => true
        case Fall(s') => TestCarriesOver(env, load, orig, addr, k + 1, s')
  }

  lemma ConditionalStep(env: Env, load: U64 -> U64, pc: U64, i: Instr, t: State)
    requires IsConditional(i)
    ensures Exec(env, load, pc, i, t) == if Taken(i, t) then Goto(TargetOf(i, pc), t) else Fall(t)
  {
  }

  /** The relocated test changes the outcome exactly when it does not carry over. */
  lemma {:induction false} RelocatedExitIsInPlace(
      env: Env, load: U64 -> U64, orig: seq<Instr>, addr: U64, k: nat, s: State)
    requires k <= |orig| && OnlyLastConditional(orig)
    ensures RelocatedExit(env, load, orig, addr, k, s).to == InPlace(env, load, orig, addr, k, s).to
       <==> TestCarriesOver(env, load, orig, addr, k, s)
    ensures TestCarriesOver(env, load, orig, addr, k, s) ==>
              RelocatedExit(env, load, orig, addr, k, s) == InPlace(env, load, orig, addr, k, s)
    decreases |orig| - k
  {
    if k < |orig| {
      if IsConditional(orig[k]) {
        assert k + 1 == |orig|;
        ConditionalStep(env, load, AddressOf(addr, k), orig[k], s);
      } else {
        match Exec(env, load, AddressOf(addr, k), orig[k], s)
        case Goto(_, _) =>
        case Fall(s') => RelocatedExitIsInPlace(env, load, orig, addr, k + 1, s');
      }
    }
  }

  // ----- emission never disturbs what is already there -----

  lemma RelocateGrows(b: Buf, rx: U64, i: Instr, pc: U64, isLast: bool)
    ensures var r := Relocate(b, rx, i, pc, isLast); r.Some? ==> Grows(b, r.value)
  {
    if i.Adr? || i.Adrp? {
      EmitMovGrows(b, rx, true, i.rd, FormedAddress(i, pc));
    } else if i.B? || i.Bl? {
      EmitBranchGrows(b, rx, true, TargetOf(i, pc), i.Bl?);
    } else if IsConditional(i) {
      ConditionalGrows(b, rx, i, pc);
    }
  }

  lemma ConditionalGrows(b: Buf, rx: U64, i: Instr, pc: U64)
    requires IsConditional(i)
    ensures var r := RelocateConditional(b, rx, i, pc); r.Some? ==> Grows(b, r.value)
  {
    var r := RelocateConditional(b, rx, i, pc);
    if r.Some? {
      var reserved := Add(b, Lit(0)).value;
      var branched := EmitBranch(reserved, rx, true, TargetOf(i, pc), false).value;
      EmitBranchGrows(reserved, rx, true, TargetOf(i, pc), false);
      GrowsCompose(b, reserved, branched);
      assert r.value.slots[..b.size] == branched.slots[..b.size];
      if Intact(r.value) {
        assert b.size < PoolStart(b);
        assert r.value.slots[PoolStart(b)..] == branched.slots[PoolStart(b)..];
      }
    }
  }

  lemma {:induction false} RelocateFromGrows(b: Buf, rx: U64, orig: seq<Instr>, addr: U64, returnTo: U64, k: nat)
    requires k <= |orig|
    ensures var r := RelocateFrom(b, rx, orig, addr, returnTo, k); r.Some? ==> Grows(b, r.value)
    decreases |orig| - k
  {
    if k == |orig| {
      EmitBranchGrows(b, rx, true, returnTo, false);
    } else {
      var pc, isLast := AddressOf(addr, k), k == |orig| - 1;
      RelocateGrows(b, rx, orig[k], pc, isLast);
      var next := Relocate(b, rx, orig[k], pc, isLast);
      if next.Some? {
        RelocateFromGrows(next.value, rx, orig, addr, returnTo, k + 1);
        var r := RelocateFrom(next.value, rx, orig, addr, returnTo, k + 1);
        if r.Some? {
          GrowsCompose(b, next.value, r.value);
        }
      }
    }
  }

  // ----- one instruction -----

  /** Copied instructions act alike on states that agree on the registers they use. */
  lemma CopiedAgrees(
      env: Env, load: U64 -> U64, load': U64 -> U64, pc: U64, pc': U64, i: Instr, s: State, t: State, dirty: set<Reg>)
    requires i.AddImm? || i.Movk? || i.Br? || i.Blr? || i.Plain?
    requires CallsRespectLinkage(env) && dirty <= LINKAGE
    requires Agree(s, t, dirty) && Uses(i) !! dirty
    ensures match (Exec(env, load, pc, i, s), Exec(env, load', pc', i, t))
            case (Fall(s'), Fall(t')) => Agree(s', t', DirtyAfter(i, dirty))
            case (Goto(to, s'), Goto(to', t')) => to == to' && s' == s && t' == t
            case _ => false
  {
    match i
    case AddImm(rd, rn, imm) =>
      assert rn !in dirty;
    case Movk(rd, imm, chunk) =>
      assert rd !in dirty;
    case Br(rn) =>
      assert rn !in dirty;
    case Blr(rn) =>
      assert rn !in dirty;
      assert Agree(Set(s, LR, Wrap64(pc + 4)), Set(t, LR, Wrap64(pc' + 4)), LINKAGE);
    case Plain(op) =>
      OperateAgrees(env, op, s, t, dirty);
  }

  lemma AddressAligned(addr: U64, k: nat)
    requires addr % 4 == 0 && addr + 4 * k < TWO64
    ensures AddressOf(addr, k) == addr + 4 * k && AddressOf(addr, k) % 4 == 0
  {
  }

  lemma TargetAligned(i: Instr, pc: U64)
    requires i.B? || i.Bl? || IsConditional(i)
    requires pc % 4 == 0
    ensures TargetOf(i, pc) % 4 == 0
  {
    RelativeAligned(pc, i.imm, TWO26);
    RelativeAligned(pc, i.imm, TWO19);
    RelativeAligned(pc, i.imm, TWO14);
  }

  lemma RelativeAligned(pc: U64, imm: nat, modulus: nat)
    requires pc % 4 == 0 && modulus > 0
    ensures RelativeTarget(pc, imm, modulus) % 4 == 0
  {
    WrapKeepsAlignment(pc + 4 * SignExtend(imm % modulus, modulus));
  }

  function Patched(b: Buf, at: nat, slot: Slot): Buf
    requires at < b.size
  {
    b.(slots := b.slots[at := slot])
  }

  lemma AddCommutesWithPatch(b: Buf, at: nat, slot: Slot, next: Slot)
    requires at < b.size && Add(b, next).Some?
    ensures Add(Patched(b, at, slot), next) == Some(Patched(Add(b, next).value, at, slot))
  {
    assert b.slots[at := slot][b.size := next] == b.slots[b.size := next][at := slot];
  }

  lemma MovCommutesWithPatch(b: Buf, rx: U64, reg: Reg, value: U64, at: nat, slot: Slot)
    requires at < b.size && EmitMov(b, rx, true, reg, value).Some?
    ensures EmitMov(Patched(b, at, slot), rx, true, reg, value)
         == Some(Patched(EmitMov(b, rx, true, reg, value).value, at, slot))
  {
    var pc := Pc(b, rx);
    if AdrReaches(pc, value) {
      AddCommutesWithPatch(b, at, slot, Ins(AdrFor(reg, pc, value)));
    } else if AdrpReaches(pc, value) {
      var high, low := Ins(AdrpFor(reg, pc, value)), Ins(AddImm(reg, reg, value % TWO12));
      AddCommutesWithPatch(b, at, slot, high);
      if value % TWO12 != 0 {
        AddCommutesWithPatch(Add(b, high).value, at, slot, low);
      }
    } else {
      var b' := EmitMovLiteral(b, rx, reg, value).value;
      assert EmitMovLiteral(Patched(b, at, slot), rx, reg, value).value.slots == b'.slots[at := slot];
    }
  }

  /** Patching a reserved slot after emitting a branch is emitting it after the patch. */
  lemma BranchCommutesWithPatch(b: Buf, rx: U64, to: U64, at: nat, slot: Slot)
    requires at < b.size && EmitBranch(b, rx, true, to, false).Some?
    ensures EmitBranch(Patched(b, at, slot), rx, true, to, false)
         == Some(Patched(EmitBranch(b, rx, true, to, false).value, at, slot))
  {
    var pc := Pc(b, rx);
    if BranchReaches(pc, to) {
      AddCommutesWithPatch(b, at, slot, Ins(B(InstrUtil.BranchField(pc, to))));
    } else {
      MovCommutesWithPatch(b, rx, IP0, to, at, slot);
      AddCommutesWithPatch(EmitMov(b, rx, true, IP0, to).value, at, slot, Ins(Br(IP0)));
    }
  }

  lemma ForwardFieldReaches(pc: U64, d: nat, modulus: nat)
    requires pc % 4 == 0 && pc + 4 * d < TWO64 && 2 * d < modulus && modulus % 2 == 0
    ensures ForwardField(pc, pc + 4 * d, modulus) == Some(d)
    ensures RelativeTarget(pc, d, modulus) == pc + 4 * d
  {
    DivModUnique(d, modulus, 0, d);
  }

  /** The emitted opposite test jumps behind the far branch. */
  lemma PatchJumpsBehind(code: Code, k: nat, end: nat, i: Instr)
    requires Placed(code) && k < end <= |code.slots| && end <= k + 4 && IsConditional(i)
    requires Inverted(i, AddressOf(code.base, k), AddressOf(code.base, end)).Some?
    ensures TargetOf(Inverted(i, AddressOf(code.base, k), AddressOf(code.base, end)).value, AddressOf(code.base, k))
         == AddressOf(code.base, end)
  {
    Addresses(code, k);
    Addresses(code, end);
    ForwardFieldReaches(AddressOf(code.base, k), end - k, TWO14);
    ForwardFieldReaches(AddressOf(code.base, k), end - k, TWO19);
  }

  /** How a relocated conditional lies in the final buffer: the opposite test, then a branch. */
  lemma ConditionalLayout(slots: seq<Slot>, rx: U64, b: Buf, i: Instr, pc: U64) returns (patch: Instr, first: Buf)
    requires IsConditional(i) && RelocateConditional(b, rx, i, pc).Some?
    requires var b' := RelocateConditional(b, rx, i, pc).value; Intact(b') && Extends(slots, b')
    ensures first.size == b.size + 1 && |first.slots| == |b.slots| && b.size < |slots| && slots[b.size] == Ins(patch)
    ensures EmitBranch(first, rx, true, TargetOf(i, pc), false) == RelocateConditional(b, rx, i, pc)
    ensures Inverted(i, Pc(b, rx), Pc(RelocateConditional(b, rx, i, pc).value, rx)) == Some(patch)
  {
    var b' := RelocateConditional(b, rx, i, pc).value;
    var reserved := Add(b, Lit(0)).value;
    var branched := EmitBranch(reserved, rx, true, TargetOf(i, pc), false).value;
    patch := Inverted(i, Pc(b, rx), Pc(branched, rx)).value;
    first := Patched(reserved, b.size, Ins(patch));
    BranchCommutesWithPatch(reserved, rx, TargetOf(i, pc), b.size, Ins(patch));
    EmitBranchGrows(first, rx, true, TargetOf(i, pc), false);
    ExtendsEarlier(slots, first, b');
    assert first.slots == b.slots[b.size := Ins(patch)];
    AddedSlot(slots, b, Ins(patch));
  }

  /** The relocated form of a conditional: the branch is taken, or control continues behind it,
      as the emitted opposite test decides. */
  lemma ConditionalRuns(env: Env, code: Code, b: Buf, i: Instr, pc: U64, t: State) returns (n: nat, t': State)
    requires Placed(code) && |b.slots| == |code.slots| && pc % 4 == 0 && IsConditional(i)
    requires RelocateConditional(b, code.base, i, pc).Some?
    requires var b' := RelocateConditional(b, code.base, i, pc).value; Intact(b') && Extends(code.slots, b')
    ensures Agree(t, t', {IP0})
    ensures Run(env, code, n, At(AddressOf(code.base, b.size), t))
         == At(if Taken(i, t) == Invertible(i, t) then TargetOf(i, pc)
               else AddressOf(code.base, RelocateConditional(b, code.base, i, pc).value.size), t')
  {
    var end := RelocateConditional(b, code.base, i, pc).value.size;
    var patch, first := ConditionalLayout(code.slots, code.base, b, i, pc);
    InvertedTest(i, AddressOf(code.base, b.size), AddressOf(code.base, end), t);
    if Taken(patch, t) {
      SkipRuns(env, code, b.size, end, i, patch, t);
      n, t' := 1, t;
    } else {
      TargetAligned(i, pc);
      n := BranchRuns(env, code, b.size, first, TargetOf(i, pc), patch, t);
      t' := Detour(t, Pc(first, code.base), TargetOf(i, pc));
    }
  }

  lemma BranchRuns(env: Env, code: Code, k: nat, first: Buf, to: U64, patch: Instr, t: State) returns (n: nat)
    requires Placed(code) && k + 1 == first.size && k < |code.slots| == |first.slots| && IsConditional(patch)
    requires code.slots[k] == Ins(patch) && !Taken(patch, t)
    requires to % 4 == 0
    requires EmitBranch(first, code.base, true, to, false).Some?
    requires var b' := EmitBranch(first, code.base, true, to, false).value; Intact(b') && Extends(code.slots, b')
    ensures Run(env, code, n, At(AddressOf(code.base, k), t)) == At(to, Detour(t, Pc(first, code.base), to))
  {
    ConditionalStep(env, Loader(env, code), AddressOf(code.base, k), patch, t);
    StepFall(env, code, k, t, t);
    var m := EmitJumpRuns(env, code, first, true, to, t);
    RunCompose(env, code, 1, m, At(AddressOf(code.base, k), t));
    n := 1 + m;
  }

  lemma SkipRuns(env: Env, code: Code, k: nat, end: nat, i: Instr, patch: Instr, t: State)
    requires Placed(code) && k < end <= |code.slots| && end <= k + 4 && IsConditional(i)
    requires Inverted(i, AddressOf(code.base, k), AddressOf(code.base, end)) == Some(patch)
    requires code.slots[k] == Ins(patch) && Taken(patch, t)
    ensures Run(env, code, 1, At(AddressOf(code.base, k), t)) == At(AddressOf(code.base, end), t)
  {
    PatchJumpsBehind(code, k, end, i);
    ConditionalStep(env, Loader(env, code), AddressOf(code.base, k), patch, t);
    StepGoto(env, code, k, t, AddressOf(code.base, end), t);
  }

  // ----- the whole trampoline -----

  /** The trampoline and the originals lie in memory. */
  ghost predicate WellPlaced(code: Code, orig: seq<Instr>, addr: U64)
  {
    Placed(code) && addr % 4 == 0 && addr + 4 * |orig| < TWO64
  }

  /** A call runs its callee on states that agree outside the linkage registers. */
  lemma CallRuns(env: Env, code: Code, b: Buf, i: Instr, pc: U64, s: State, t: State, dirty: set<Reg>)
    returns (n: nat, t': State)
    requires Placed(code) && |b.slots| == |code.slots| && pc % 4 == 0 && i.Bl?
    requires CallsRespectLinkage(env) && dirty <= LINKAGE && Agree(s, t, dirty)
    requires EmitBranch(b, code.base, true, TargetOf(i, pc), true).Some?
    requires var b' := EmitBranch(b, code.base, true, TargetOf(i, pc), true).value;
             Intact(b') && Extends(code.slots, b')
    ensures Run(env, code, n, At(AddressOf(code.base, b.size), t))
         == At(AddressOf(code.base, EmitBranch(b, code.base, true, TargetOf(i, pc), true).value.size), t')
    ensures Agree(env.call(TargetOf(i, pc), Set(s, LR, Wrap64(pc + 4))), t', LINKAGE)
  {
    TargetAligned(i, pc);
    var linked;
    n, linked := EmitCallRuns(env, code, b, true, TargetOf(i, pc), t);
    t' := env.call(TargetOf(i, pc), linked);
    assert Agree(Set(s, LR, Wrap64(pc + 4)), linked, LINKAGE);
  }

  /** An instruction that is neither a conditional nor leaves: relocated, it does the same and
      continues behind its emitted code. */
  lemma StraightRuns(env: Env, code: Code, b: Buf, i: Instr, pc: U64, isLast: bool, s: State, t: State, dirty: set<Reg>)
    returns (n: nat, t': State)
    requires Placed(code) && |b.slots| == |code.slots| && pc % 4 == 0
    requires CallsRespectLinkage(env) && dirty <= LINKAGE && Agree(s, t, dirty) && Uses(i) !! dirty
    requires !IsConditional(i) && !i.B? && !i.Br? && KeepsStack(i, pc, Pc(b, code.base))
    requires Relocate(b, code.base, i, pc, isLast).Some?
    requires var b' := Relocate(b, code.base, i, pc, isLast).value; Intact(b') && Extends(code.slots, b')
    ensures Exec(env, Loader(env, code), pc, i, s).Fall?
    ensures Run(env, code, n, At(AddressOf(code.base, b.size), t))
         == At(AddressOf(code.base, Relocate(b, code.base, i, pc, isLast).value.size), t')
    ensures Agree(Exec(env, Loader(env, code), pc, i, s).s, t', DirtyAfter(i, dirty))
  {
    var load := Loader(env, code);
    if i.Adr? || i.Adrp? {
      n := EmitMovRuns(env, code, b, true, i.rd, FormedAddress(i, pc), t);
      t' := Set(t, i.rd, FormedAddress(i, pc));
    } else if i.Bl? {
      n, t' := CallRuns(env, code, b, i, pc, s, t, dirty);
    } else {
      AddedSlot(code.slots, b, Ins(i));
      var pc' := AddressOf(code.base, b.size);
      CopiedAgrees(env, load, load, pc, pc', i, s, t, dirty);
      t' := Exec(env, load, pc', i, t).s;
      StepFall(env, code, b.size, t, t');
      n := 1;
    }
  }

  lemma DirtyStaysLost(orig: seq<Instr>, k: nat, dirty: set<Reg>)
    requires k < |orig| && dirty <= Lost(orig)
    ensures DirtyAfter(orig[k], dirty) <= Lost(orig) <= LINKAGE
  {
  }

  lemma RelocateFromStep(b: Buf, rx: U64, orig: seq<Instr>, addr: U64, returnTo: U64, k: nat)
    returns (next: Buf, final: Buf)
    requires k < |orig| && RelocateFrom(b, rx, orig, addr, returnTo, k).Some?
    ensures Relocate(b, rx, orig[k], AddressOf(addr, k), k == |orig| - 1) == Some(next)
    ensures RelocateFrom(next, rx, orig, addr, returnTo, k + 1)
         == Some(final) == RelocateFrom(b, rx, orig, addr, returnTo, k)
    ensures Grows(next, final)
  {
    next := Relocate(b, rx, orig[k], AddressOf(addr, k), k == |orig| - 1).value;
    final := RelocateFrom(next, rx, orig, addr, returnTo, k + 1).value;
    RelocateFromGrows(next, rx, orig, addr, returnTo, k + 1);
  }

  /** B, and a branch through a register, leave for the same place from either copy. */
  lemma LeaveRuns(env: Env, code: Code, b: Buf, i: Instr, pc: U64, isLast: bool, s: State, t: State, dirty: set<Reg>)
    returns (n: nat, t': State)
    requires Placed(code) && |b.slots| == |code.slots| && pc % 4 == 0 && (i.B? || i.Br?)
    requires Agree(s, t, dirty) && Uses(i) !! dirty
    requires Relocate(b, code.base, i, pc, isLast).Some?
    requires var b' := Relocate(b, code.base, i, pc, isLast).value; Intact(b') && Extends(code.slots, b')
    ensures Exec(env, Loader(env, code), pc, i, s).Goto? && Exec(env, Loader(env, code), pc, i, s).s == s
    ensures Run(env, code, n, At(AddressOf(code.base, b.size), t)) == At(Exec(env, Loader(env, code), pc, i, s).to, t')
    ensures Agree(s, t', dirty + {IP0})
  {
    if i.B? {
      TargetAligned(i, pc);
      n := EmitJumpRuns(env, code, b, true, TargetOf(i, pc), t);
      t' := Detour(t, Pc(b, code.base), TargetOf(i, pc));
    } else {
      AddedSlot(code.slots, b, Ins(i));
      assert i.rn !in dirty;
      StepGoto(env, code, b.size, t, Get(s, i.rn), t);
      n, t' := 1, t;
    }
  }

  /** The emission of `orig` from instruction `k` on is finished in `code`, and the two copies
      stand before instruction `k` in states that agree outside the registers in `dirty`. */
  ghost predicate InStep(
    env: Env, code: Code, orig: seq<Instr>, addr: U64, k: nat, b: Buf, s: State, t: State, dirty: set<Reg>)
  {
    && k <= |orig| && |b.slots| == |code.slots|
    && (k == |orig| > 0 ==> !orig[k - 1].B?)
    && dirty <= Lost(orig) && Agree(s, t, dirty) && Accepted(orig, k, dirty)
    && StackSafe(b, code.base, orig, addr, k)
    && var f := RelocateFrom(b, code.base, orig, addr, AddressOf(addr, |orig|), k);
       f.Some? && Intact(f.value) && Extends(code.slots, f.value)
  }

  /** From any instruction on, the trampoline reaches the place the in-place run leaves to, in a
      state that differs at most in the linkage registers. */
  lemma {:induction false} Simulates(
    env: Env, code: Code, orig: seq<Instr>, addr: U64, k: nat, b: Buf, s: State, t: State, dirty: set<Reg>)
    returns (n: nat, t': State)
    requires WellPlaced(code, orig, addr) && CallsRespectLinkage(env)
    requires InStep(env, code, orig, addr, k, b, s, t, dirty)
    ensures Run(env, code, n, At(AddressOf(code.base, b.size), t))
         == At(RelocatedExit(env, Loader(env, code), orig, addr, k, s).to, t')
    ensures Agree(RelocatedExit(env, Loader(env, code), orig, addr, k, s).s, t', Lost(orig))
    decreases |orig| - k, 1
  {
    var returnTo := AddressOf(addr, |orig|);
    AddressAligned(addr, k);
    AddressAligned(addr, |orig|);
    if k == |orig| {
      n := EmitJumpRuns(env, code, b, true, returnTo, t);
      t' := Detour(t, Pc(b, code.base), returnTo);
    } else if IsConditional(orig[k]) || orig[k].B? || orig[k].Br? {
      n, t' := BranchSimulates(env, code, orig, addr, k, b, s, t, dirty);
    } else {
      n, t' := StraightSimulates(env, code, orig, addr, k, b, s, t, dirty);
    }
  }

  lemma BranchSimulates(
    env: Env, code: Code, orig: seq<Instr>, addr: U64, k: nat, b: Buf, s: State, t: State, dirty: set<Reg>)
    returns (n: nat, t': State)
    requires WellPlaced(code, orig, addr) && InStep(env, code, orig, addr, k, b, s, t, dirty)
    requires k < |orig| && (IsConditional(orig[k]) || orig[k].B? || orig[k].Br?)
    ensures Run(env, code, n, At(AddressOf(code.base, b.size), t))
         == At(RelocatedExit(env, Loader(env, code), orig, addr, k, s).to, t')
    ensures Agree(RelocatedExit(env, Loader(env, code), orig, addr, k, s).s, t', Lost(orig))
  {
    AddressAligned(addr, k);
    var next, final := RelocateFromStep(b, code.base, orig, addr, AddressOf(addr, |orig|), k);
    ExtendsEarlier(code.slots, next, final);
    if IsConditional(orig[k]) {
      RelocatedExitOfLast(env, Loader(env, code), orig, addr, s);
      n, t' := ConditionalSimulates(env, code, orig, addr, b, next, s, t, dirty);
    } else {
      n, t' := LeaveRuns(env, code, b, orig[k], AddressOf(addr, k), k == |orig| - 1, s, t, dirty);
    }
  }

  lemma {:induction false} StraightSimulates(
    env: Env, code: Code, orig: seq<Instr>, addr: U64, k: nat, b: Buf, s: State, t: State, dirty: set<Reg>)
    returns (n: nat, t': State)
    requires WellPlaced(code, orig, addr) && CallsRespectLinkage(env)
    requires InStep(env, code, orig, addr, k, b, s, t, dirty)
    requires k < |orig| && !IsConditional(orig[k]) && !orig[k].B? && !orig[k].Br?
    ensures Run(env, code, n, At(AddressOf(code.base, b.size), t))
         == At(RelocatedExit(env, Loader(env, code), orig, addr, k, s).to, t')
    ensures Agree(RelocatedExit(env, Loader(env, code), orig, addr, k, s).s, t', Lost(orig))
    decreases |orig| - k, 0
  {
    var m, next, s1, t1 := StraightStep(env, code, orig, addr, k, b, s, t, dirty);
    var m2;
    m2, t' := Simulates(env, code, orig, addr, k + 1, next, s1, t1, DirtyAfter(orig[k], dirty));
    RunCompose(env, code, m, m2, At(AddressOf(code.base, b.size), t));
    n := m + m2;
  }

  /** A straight instruction keeps the two copies in step. */
  lemma StraightStep(
    env: Env, code: Code, orig: seq<Instr>, addr: U64, k: nat, b: Buf, s: State, t: State, dirty: set<Reg>)
    returns (m: nat, next: Buf, s1: State, t1: State)
    requires WellPlaced(code, orig, addr) && CallsRespectLinkage(env)
    requires InStep(env, code, orig, addr, k, b, s, t, dirty)
    requires k < |orig| && !IsConditional(orig[k]) && !orig[k].B? && !orig[k].Br?
    ensures Exec(env, Loader(env, code), AddressOf(addr, k), orig[k], s) == Fall(s1)
    ensures Run(env, code, m, At(AddressOf(code.base, b.size), t)) == At(AddressOf(code.base, next.size), t1)
    ensures InStep(env, code, orig, addr, k + 1, next, s1, t1, DirtyAfter(orig[k], dirty))
  {
    var i, pc := orig[k], AddressOf(addr, k);
    AddressAligned(addr, k);
    var final;
    next, final := RelocateFromStep(b, code.base, orig, addr, AddressOf(addr, |orig|), k);
    ExtendsEarlier(code.slots, next, final);
    m, t1 := StraightRuns(env, code, b, i, pc, k == |orig| - 1, s, t, dirty);
    DirtyStaysLost(orig, k, dirty);
    s1 := Exec(env, Loader(env, code), pc, i, s).s;
  }

  /** A conditional can only be last: then its relocated form, or the return behind it, leaves. */
  lemma ConditionalSimulates(
    env: Env, code: Code, orig: seq<Instr>, addr: U64, b: Buf, next: Buf, s: State, t: State, dirty: set<Reg>)
    returns (n: nat, t': State)
    requires WellPlaced(code, orig, addr) && |b.slots| == |code.slots| == |next.slots|
    requires |orig| > 0 && IsConditional(orig[|orig| - 1])
    requires RelocateConditional(b, code.base, orig[|orig| - 1], AddressOf(addr, |orig| - 1)) == Some(next)
    requires EmitBranch(next, code.base, true, AddressOf(addr, |orig|), false).Some?
    requires var f := EmitBranch(next, code.base, true, AddressOf(addr, |orig|), false).value;
             Intact(f) && Extends(code.slots, f)
    requires Intact(next) && Extends(code.slots, next)
    requires Agree(s, t, dirty) && Uses(orig[|orig| - 1]) !! dirty
    ensures Run(env, code, n, At(AddressOf(code.base, b.size), t))
         == At(if Taken(orig[|orig| - 1], s) == Invertible(orig[|orig| - 1], s)
               then TargetOf(orig[|orig| - 1], AddressOf(addr, |orig| - 1)) else AddressOf(addr, |orig|), t')
    ensures Agree(s, t', dirty + {IP0})
  {
    AddressAligned(addr, |orig| - 1);
    AddressAligned(addr, |orig|);
    n, t' := ConditionalReturns(
      env, code, b, next, orig[|orig| - 1], AddressOf(addr, |orig| - 1), AddressOf(addr, |orig|), s, t, dirty);
  }

  lemma ConditionalReturns(
    env: Env, code: Code, b: Buf, next: Buf, i: Instr, pc: U64, returnTo: U64, s: State, t: State, dirty: set<Reg>)
    returns (n: nat, t': State)
    requires Placed(code) && |b.slots| == |code.slots| == |next.slots| && pc % 4 == 0 && returnTo % 4 == 0
    requires IsConditional(i) && RelocateConditional(b, code.base, i, pc) == Some(next)
    requires EmitBranch(next, code.base, true, returnTo, false).Some?
    requires var f := EmitBranch(next, code.base, true, returnTo, false).value; Intact(f) && Extends(code.slots, f)
    requires Intact(next) && Extends(code.slots, next)
    requires Agree(s, t, dirty) && Uses(i) !! dirty
    ensures Run(env, code, n, At(AddressOf(code.base, b.size), t))
         == At(if Taken(i, s) == Invertible(i, s) then TargetOf(i, pc) else returnTo, t')
    ensures Agree(s, t', dirty + {IP0})
  {
    TestAgrees(i, s, t, dirty);
    n, t' := ConditionalRuns(env, code, b, i, pc, t);
    if Taken(i, t) != Invertible(i, t) {
      var m := EmitJumpRuns(env, code, next, true, returnTo, t');
      RunCompose(env, code, n, m, At(AddressOf(code.base, b.size), t));
      n, t' := n + m, Detour(t', Pc(next, code.base), returnTo);
    }
  }

  lemma TestAgrees(i: Instr, s: State, t: State, dirty: set<Reg>)
    requires IsConditional(i) && Agree(s, t, dirty) && Uses(i) !! dirty
    ensures Taken(i, s) == Taken(i, t) && Invertible(i, s) == Invertible(i, t)
  {
    if !i.Bcond? {
      assert i.rt !in dirty;
    }
  }

  function Backup(orig: seq<Instr>, addr: U64, capacity: nat, rx: U64): Option<Buf>
  {
    MakeBackup(orig, addr, AddressOf(addr, |orig|), capacity, rx)
  }

  lemma MustBeLast(b: Buf, rx: U64, i: Instr, pc: U64)
    requires IsConditional(i) || i.B?
    ensures Relocate(b, rx, i, pc, false).None?
  {
  }

  /** Every instruction that must be last is last: otherwise the relocator aborts. */
  lemma {:induction false} BranchesAreLast(b: Buf, rx: U64, orig: seq<Instr>, addr: U64, returnTo: U64, k: nat, j: nat)
    requires k <= j < |orig| - 1 && RelocateFrom(b, rx, orig, addr, returnTo, k).Some?
    ensures !IsConditional(orig[j]) && !orig[j].B?
    decreases j - k
  {
    var next, _ := RelocateFromStep(b, rx, orig, addr, returnTo, k);
    if k < j {
      BranchesAreLast(next, rx, orig, addr, returnTo, k + 1, j);
    } else if IsConditional(orig[j]) || orig[j].B? {
      MustBeLast(b, rx, orig[j], AddressOf(addr, k));
    }
  }

  lemma {:induction false} ConditionalsAreLast(b: Buf, rx: U64, orig: seq<Instr>, addr: U64, returnTo: U64)
    requires RelocateFrom(b, rx, orig, addr, returnTo, 0).Some?
    ensures OnlyLastConditional(orig)
  {
    forall j | 0 <= j < |orig| - 1
      ensures !IsConditional(orig[j])
    {
      BranchesAreLast(b, rx, orig, addr, returnTo, 0, j);
    }
  }

  lemma StartsAtBase(rx: U64, capacity: nat)
    ensures |EmptyBuf(capacity).slots| == capacity && AddressOf(rx, EmptyBuf(capacity).size) == rx
  {
  }

  lemma {:induction false} RelocatedFromStart(orig: seq<Instr>, addr: U64, rx: U64, b: Buf) returns (final: Buf)
    requires Backup(orig, addr, |b.slots|, rx) == Some(b)
    ensures final == b && RelocateFrom(EmptyBuf(|b.slots|), rx, orig, addr, AddressOf(addr, |orig|), 0) == Some(final)
  {
    final := b;
  }

  /** Run from a state `t` that differs from `s` in `dirty` alone, the trampoline does what the
      relocated instructions do to `s`. */
  lemma {:induction false} TrampolineRuns(
    env: Env, orig: seq<Instr>, addr: U64, code: Code, b: Buf, s: State, t: State, dirty: set<Reg>)
    returns (n: nat, t': State)
    requires Backup(orig, addr, |b.slots|, code.base) == Some(b) && b.slots == code.slots && Intact(b)
    requires WellPlaced(code, orig, addr) && CallsRespectLinkage(env)
    requires dirty <= {IP0} && Agree(s, t, dirty) && Accepted(orig, 0, dirty)
    requires StackSafe(EmptyBuf(|b.slots|), code.base, orig, addr, 0)
    ensures Run(env, code, n, At(code.base, t)) == At(RelocatedExit(env, Loader(env, code), orig, addr, 0, s).to, t')
    ensures Agree(RelocatedExit(env, Loader(env, code), orig, addr, 0, s).s, t', Lost(orig))
    ensures OnlyLastConditional(orig)
  {
    var start := EmptyBuf(|b.slots|);
    StartsAtBase(code.base, |b.slots|);
    var final := RelocatedFromStart(orig, addr, code.base, b);
    ConditionalsAreLast(start, code.base, orig, addr, AddressOf(addr, |orig|));
    assert InStep(env, code, orig, addr, 0, start, s, t, dirty);
    n, t' := Simulates(env, code, orig, addr, 0, start, s, t, dirty);
  }

  /** What a run that leaves to `to` in state `t` has in common with the run in place from `s`. */
  ghost predicate Faithful(env: Env, orig: seq<Instr>, addr: U64, code: Code, s: State, to: U64, t: State)
  {
    var load := Loader(env, code);
    && (to == InPlace(env, load, orig, addr, 0, s).to <==> TestCarriesOver(env, load, orig, addr, 0, s))
    && (TestCarriesOver(env, load, orig, addr, 0, s) ==> Agree(InPlace(env, load, orig, addr, 0, s).s, t, Lost(orig)))
  }

  /** Running the trampoline arrives where the overwritten instructions would have left to if and
      only if the relocated test of a final conditional carries over; then the state is the same
      except for IP0 and, if the trampoline made a call, the link register. */
  lemma {:induction false} TrampolineIsFaithful(env: Env, orig: seq<Instr>, addr: U64, code: Code, b: Buf, s: State)
    returns (n: nat, to: U64, t: State)
    requires Backup(orig, addr, |b.slots|, code.base) == Some(b) && b.slots == code.slots && Intact(b)
    requires WellPlaced(code, orig, addr) && CallsRespectLinkage(env) && Accepted(orig, 0, {})
    requires StackSafe(EmptyBuf(|b.slots|), code.base, orig, addr, 0)
    ensures Run(env, code, n, At(code.base, s)) == At(to, t) && Faithful(env, orig, addr, code, s, to, t)
  {
    n, t := TrampolineRuns(env, orig, addr, code, b, s, s, {});
    to := RelocatedExit(env, Loader(env, code), orig, addr, 0, s).to;
    RelocatedExitIsInPlace(env, Loader(env, code), orig, addr, 0, s);
  }

  /** The same when IP0 has been used on the way to the trampoline, for instructions that do not
      take anything from IP0. */
  lemma {:induction false} EnteredIsFaithful(
    env: Env, orig: seq<Instr>, addr: U64, code: Code, b: Buf, s: State, entered: State)
    returns (n: nat, to: U64, t: State)
    requires Backup(orig, addr, |b.slots|, code.base) == Some(b) && b.slots == code.slots && Intact(b)
    requires WellPlaced(code, orig, addr) && CallsRespectLinkage(env) && Accepted(orig, 0, {IP0})
    requires Agree(s, entered, {IP0}) && StackSafe(EmptyBuf(|b.slots|), code.base, orig, addr, 0)
    ensures Run(env, code, n, At(code.base, entered)) == At(to, t) && Faithful(env, orig, addr, code, s, to, t)
  {
    n, t := TrampolineRuns(env, orig, addr, code, b, s, entered, {IP0});
    to := RelocatedExit(env, Loader(env, code), orig, addr, 0, s).to;
    RelocatedExitIsInPlace(env, Loader(env, code), orig, addr, 0, s);
  }
}
