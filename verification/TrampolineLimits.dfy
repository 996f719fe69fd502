/** When a trampoline fits its buffer, and what goes wrong at the limits of the relocator. */
module TrampolineLimits {
  import opened Words
  import opened Arm64
  import opened Emitter
  import opened EmitterProof
  import opened Options
  import opened Trampoline
  import opened TrampolineProof
  import InstrUtil

  /** Words of a level-2 trampoline backup. */
  const BACKUP_WORDS: nat := 25

  /** Words no longer free: code at the front and literals at the back. */
  function Used(b: Buf): nat { b.size + (|b.slots| - b.cap) }

  ghost predicate InMemory(b: Buf, rx: U64) { rx % 4 == 0 && rx + 4 * |b.slots| < TWO64 && |b.slots| < TWO16 }

  lemma LiteralFieldFits(b: Buf, rx: U64)
    requires InMemory(b, rx) && b.cap >= b.size + 3
    ensures ForwardField(Pc(b, rx), AddressOf(rx, b.cap - 3), TWO19) == Some(b.cap - 3 - b.size)
  {
    AddressAligned(rx, b.size);
    AddressAligned(rx, b.cap - 3);
    var d := b.cap - 3 - b.size;
    assert AddressOf(rx, b.cap - 3) == Pc(b, rx) + 4 * d;
    ForwardFieldReaches(Pc(b, rx), d, TWO19);
  }

  lemma MovFits(b: Buf, rx: U64, reg: Reg, value: U64)
    requires InMemory(b, rx) && Used(b) + 3 <= |b.slots|
    ensures var e := EmitMov(b, rx, true, reg, value);
            e.Some? && |e.value.slots| == |b.slots| && Used(e.value) <= Used(b) + 3
  {
    if !AdrReaches(Pc(b, rx), value) && !AdrpReaches(Pc(b, rx), value) {
      LiteralFieldFits(b, rx);
    }
  }

  lemma BranchFits(b: Buf, rx: U64, to: U64, link: bool)
    requires InMemory(b, rx) && Used(b) + 4 <= |b.slots|
    ensures var e := EmitBranch(b, rx, true, to, link);
            e.Some? && |e.value.slots| == |b.slots| && Used(e.value) <= Used(b) + 4
  {
    if !BranchReaches(Pc(b, rx), to) {
      MovFits(b, rx, IP0, to);
    }
  }

  lemma ConditionalFits(b: Buf, rx: U64, i: Instr, pc: U64)
    requires InMemory(b, rx) && Used(b) + 5 <= |b.slots| && IsConditional(i)
    ensures var e := RelocateConditional(b, rx, i, pc);
            e.Some? && |e.value.slots| == |b.slots| && Used(e.value) <= Used(b) + 5
  {
    var reserved := Add(b, Lit(0)).value;
    BranchFits(reserved, rx, TargetOf(i, pc), false);
    JumpsOver(rx, b.size, EmitBranch(reserved, rx, true, TargetOf(i, pc), false).value.size);
  }

  /** The patch reaches the end of the far branch. */
  lemma JumpsOver(rx: U64, from: nat, end: nat)
    requires rx % 4 == 0 && rx + 4 * end < TWO64 && from <= end <= from + 4
    ensures ForwardField(AddressOf(rx, from), AddressOf(rx, end), TWO19).Some?
    ensures ForwardField(AddressOf(rx, from), AddressOf(rx, end), TWO14).Some?
  {
    AddressAligned(rx, from);
    AddressAligned(rx, end);
    ForwardFieldReaches(AddressOf(rx, from), end - from, TWO19);
    ForwardFieldReaches(AddressOf(rx, from), end - from, TWO14);
  }

  /** What the relocator supports: no literal load, and direct branches only in last place. */
  predicate Supported(orig: seq<Instr>)
  {
    forall k :: 0 <= k < |orig| ==>
      !orig[k].LdrLiteral? && (k < |orig| - 1 ==> !orig[k].B? && !IsConditional(orig[k]))
  }

  lemma {:induction false} RelocateFromFits(b: Buf, rx: U64, orig: seq<Instr>, addr: U64, returnTo: U64, k: nat)
    requires InMemory(b, rx) && Supported(orig) && k <= |orig|
    requires Used(b) + 4 * (|orig| - k) + (if k < |orig| then 5 else 4) <= |b.slots|
    ensures var e := RelocateFrom(b, rx, orig, addr, returnTo, k);
            && e.Some? && |e.value.slots| == |b.slots|
            && Used(e.value) <= Used(b) + 4 * (|orig| - k) + (if k < |orig| then 5 else 4)
    decreases |orig| - k
  {
    if k == |orig| {
      BranchFits(b, rx, returnTo, false);
    } else {
      var i, pc := orig[k], AddressOf(addr, k);
      if IsConditional(i) {
        ConditionalFits(b, rx, i, pc);
      } else if i.B? || i.Bl? {
        BranchFits(b, rx, TargetOf(i, pc), i.Bl?);
      } else if i.Adr? || i.Adrp? {
        MovFits(b, rx, i.rd, FormedAddress(i, pc));
      }
      var next := Relocate(b, rx, i, pc, k == |orig| - 1).value;
      RelocateFromFits(next, rx, orig, addr, returnTo, k + 1);
    }
  }

  /** A buffer of more than 4 n + 5 words always holds the backup of n supported instructions,
      with its literals intact. Level 2 has 25 words: enough for four instructions. */
  lemma BackupFits(orig: seq<Instr>, addr: U64, capacity: nat, rx: U64)
    requires Supported(orig) && 4 * |orig| + 5 < capacity < TWO16
    requires addr % 4 == 0 && addr + 4 * |orig| < TWO64 && rx % 4 == 0 && rx + 4 * capacity < TWO64
    ensures Backup(orig, addr, capacity, rx).Some? && Intact(Backup(orig, addr, capacity, rx).value)
  {
    BackupIsLoop(orig, addr, capacity, rx);
    RelocateFromFits(EmptyBuf(capacity), rx, orig, addr, AddressOf(addr, |orig|), 0);
  }

  // ----- five instructions do not fit -----

  /** No short form reaches `to` from anywhere in the buffer. */
  ghost predicate FarFrom(rx: U64, capacity: nat, to: U64)
  {
    forall k: nat :: k <= capacity ==>
      var pc := AddressOf(rx, k); !BranchReaches(pc, to) && !AdrReaches(pc, to) && !AdrpReaches(pc, to)
  }

  lemma NotNear(b: Buf, rx: U64, to: U64)
    requires FarFrom(rx, |b.slots|, to)
    ensures !BranchReaches(Pc(b, rx), to) && !AdrReaches(Pc(b, rx), to) && !AdrpReaches(Pc(b, rx), to)
  {
    assert Pc(b, rx) == AddressOf(rx, b.size);
  }

  lemma LiteralMove(b: Buf, rx: U64, to: U64) returns (moved: Buf)
    requires InMemory(b, rx) && b.cap >= b.size + 4
    ensures EmitMovLiteral(b, rx, IP0, to) == Some(moved)
    ensures |moved.slots| == |b.slots| && moved.size == b.size + 1 && moved.cap == b.cap - 2
  {
    LiteralFieldFits(b, rx);
    moved := EmitMovLiteral(b, rx, IP0, to).value;
  }

  lemma FarBranch(b: Buf, rx: U64, to: U64, link: bool)
    requires InMemory(b, rx) && FarFrom(rx, |b.slots|, to) && b.cap >= b.size + 4
    ensures var e := EmitBranch(b, rx, true, to, link);
            && e.Some? && |e.value.slots| == |b.slots| && e.value.size == b.size + 2 && e.value.cap == b.cap - 2
            && e.value.slots[b.size + 1] == Ins(if link then Blr(IP0) else Br(IP0))
  {
    NotNear(b, rx, to);
    var moved := LiteralMove(b, rx, to);
    assert EmitMov(b, rx, true, IP0, to) == Some(moved);
  }

  /** Four calls and a CBZ, every target and the return address out of short reach. */
  ghost predicate FiveFar(orig: seq<Instr>, addr: U64, rx: U64)
  {
    && addr % 4 == 0 && addr + 20 < TWO64 && rx % 4 == 0 && rx + 4 * BACKUP_WORDS < TWO64
    && |orig| == 5
    && (forall k :: 0 <= k < 4 ==>
          orig[k].Bl? && FarFrom(rx, BACKUP_WORDS, TargetOf(orig[k], AddressOf(addr, k))))
    && orig[4].Cb? && FarFrom(rx, BACKUP_WORDS, TargetOf(orig[4], AddressOf(addr, 4)))
    && FarFrom(rx, BACKUP_WORDS, AddressOf(addr, 5))
  }

  /** Four far calls, a far CBZ and a far return fill the 25 words exactly: the relocator accepts,
      and its last instruction lies on the low word of the return address it is to branch to. */
  lemma FullBackupLosesItsReturn(orig: seq<Instr>, addr: U64, rx: U64) returns (b: Buf)
    requires FiveFar(orig, addr, rx)
    ensures Backup(orig, addr, BACKUP_WORDS, rx) == Some(b) && |b.slots| == BACKUP_WORDS && !Intact(b)
    ensures b.slots[12] == Ins(Br(IP0)) && b.slots[11] == Ins(LdrLiteral(IP0, 1))
  {
    var ret := AddressOf(addr, 5);
    BackupIsLoop(orig, addr, BACKUP_WORDS, rx);
    var b4 := FourFarCalls(EmptyBuf(BACKUP_WORDS), rx, orig, addr, ret);
    var b5 := FarConditional(b4, rx, orig, addr, ret);
    b := LastBranchOverlaps(b5, rx, ret);
  }

  lemma BackupIsLoop(orig: seq<Instr>, addr: U64, capacity: nat, rx: U64)
    requires addr % 4 == 0 && addr + 4 * |orig| < TWO64
    ensures Backup(orig, addr, capacity, rx)
         == RelocateFrom(EmptyBuf(capacity), rx, orig, addr, AddressOf(addr, |orig|), 0)
  {
    AddressAligned(addr, |orig|);
    DivModUnique(addr - AddressOf(addr, |orig|), 4, -|orig|, 0);
  }

  lemma FourFarCalls(b: Buf, rx: U64, orig: seq<Instr>, addr: U64, returnTo: U64) returns (next: Buf)
    requires |orig| == 5 && InMemory(b, rx) && b.cap >= b.size + 16
    requires forall k :: 0 <= k < 4 ==> orig[k].Bl? && FarFrom(rx, |b.slots|, TargetOf(orig[k], AddressOf(addr, k)))
    ensures |next.slots| == |b.slots| && next.size == b.size + 8 && next.cap == b.cap - 8
    ensures RelocateFrom(b, rx, orig, addr, returnTo, 0) == RelocateFrom(next, rx, orig, addr, returnTo, 4)
  {
    next := b;
    var k := 0;
    while k < 4
      invariant k <= 4 && |next.slots| == |b.slots| && next.size == b.size + 2 * k && next.cap == b.cap - 2 * k
      invariant RelocateFrom(b, rx, orig, addr, returnTo, 0) == RelocateFrom(next, rx, orig, addr, returnTo, k)
    {
      next := FarCall(next, rx, orig, addr, returnTo, k);
      k := k + 1;
    }
  }

  lemma LastBranchOverlaps(b: Buf, rx: U64, to: U64) returns (e: Buf)
    requires InMemory(b, rx) && FarFrom(rx, |b.slots|, to) && |b.slots| == BACKUP_WORDS && b.size == 11 && b.cap == 15
    ensures EmitBranch(b, rx, true, to, false) == Some(e) && |e.slots| == BACKUP_WORDS && !Intact(e)
    ensures e.slots[12] == Ins(Br(IP0)) && e.slots[11] == Ins(LdrLiteral(IP0, 1))
  {
    FarBranch(b, rx, to, false);
    LiteralFieldFits(b, rx);
    e := EmitBranch(b, rx, true, to, false).value;
  }

  lemma FarCall(b: Buf, rx: U64, orig: seq<Instr>, addr: U64, returnTo: U64, k: nat) returns (next: Buf)
    requires InMemory(b, rx) && k < |orig| && orig[k].Bl? && b.cap >= b.size + 4
    requires FarFrom(rx, |b.slots|, TargetOf(orig[k], AddressOf(addr, k)))
    ensures |next.slots| == |b.slots| && next.size == b.size + 2 && next.cap == b.cap - 2
    ensures RelocateFrom(b, rx, orig, addr, returnTo, k) == RelocateFrom(next, rx, orig, addr, returnTo, k + 1)
  {
    FarBranch(b, rx, TargetOf(orig[k], AddressOf(addr, k)), true);
    next := Relocate(b, rx, orig[k], AddressOf(addr, k), k == |orig| - 1).value;
  }

  lemma FarConditional(b: Buf, rx: U64, orig: seq<Instr>, addr: U64, returnTo: U64) returns (next: Buf)
    requires InMemory(b, rx) && |orig| > 0 && IsConditional(orig[|orig| - 1]) && b.cap >= b.size + 5
    requires Used(b) + 5 <= |b.slots|
    requires FarFrom(rx, |b.slots|, TargetOf(orig[|orig| - 1], AddressOf(addr, |orig| - 1)))
    ensures |next.slots| == |b.slots| && next.size == b.size + 3 && next.cap == b.cap - 2
    ensures RelocateFrom(b, rx, orig, addr, returnTo, |orig| - 1) == EmitBranch(next, rx, true, returnTo, false)
  {
    var i, pc := orig[|orig| - 1], AddressOf(addr, |orig| - 1);
    ConditionalFits(b, rx, i, pc);
    FarBranch(Add(b, Lit(0)).value, rx, TargetOf(i, pc), false);
    next := RelocateConditional(b, rx, i, pc).value;
    assert RelocateFrom(b, rx, orig, addr, returnTo, |orig| - 1)
         == RelocateFrom(next, rx, orig, addr, returnTo, |orig|);
  }

  /** Such a trampoline exists: the originals and what they call 512 GiB away from the buffer. */
  lemma FullBackupExists() returns (orig: seq<Instr>, addr: U64, rx: U64)
    ensures FiveFar(orig, addr, rx)
  {
    orig := [Bl(0), Bl(0), Bl(0), Bl(0), Cb(false, true, 0, 0)];
    addr, rx := 0x80_4000_0000, 0x10_0000;
    forall k | 0 <= k < 4
      ensures FarFrom(rx, BACKUP_WORDS, TargetOf(orig[k], AddressOf(addr, k)))
    {
      SelfBranchIsFar(orig[k], k, BACKUP_WORDS);
    }
    SelfBranchIsFar(orig[4], 4, BACKUP_WORDS);
    AddressAligned(addr, 5);
    FarExample(addr + 20, BACKUP_WORDS);
  }

  lemma SelfBranchIsFar(i: Instr, k: nat, capacity: nat)
    requires k < TWO32 && capacity < TWO16 && (i == Bl(0) || i == Cb(false, true, 0, 0))
    ensures FarFrom(0x10_0000, capacity, TargetOf(i, AddressOf(0x80_4000_0000, k)))
  {
    AddressAligned(0x80_4000_0000, k);
    ZeroDisplacement(AddressOf(0x80_4000_0000, k), TWO26);
    ZeroDisplacement(AddressOf(0x80_4000_0000, k), TWO19);
    FarExample(0x80_4000_0000 + 4 * k, capacity);
  }

  lemma ZeroDisplacement(pc: U64, modulus: nat)
    requires modulus > 1
    ensures RelativeTarget(pc, 0, modulus) == pc
  {
    DivModUnique(0, modulus, 0, 0);
  }

  lemma FarExample(to: U64, capacity: nat)
    requires 0x80_4000_0000 <= to <= 0x80_4000_0000 + 4 * TWO32 && capacity < TWO16
    ensures FarFrom(0x10_0000, capacity, to)
  {
    forall k: nat | k <= capacity
      ensures var pc := AddressOf(0x10_0000, k); !BranchReaches(pc, to) && !AdrReaches(pc, to) && !AdrpReaches(pc, to)
    {
      AddressAligned(0x10_0000, k);
      FarAway(0x10_0000 + 4 * k, to);
    }
  }

  lemma FarAway(pc: U64, to: U64)
    requires pc < 0x20_0000 && 0x80_4000_0000 <= to <= 0x80_4000_0000 + 4 * TWO32
    ensures !BranchReaches(pc, to) && !AdrReaches(pc, to) && !AdrpReaches(pc, to)
  {
    SignedIsUnique(to - pc, TWO64, to - pc, 0);
    SignedIsUnique(pc - to, TWO64, pc - to, 0);
    var d := PageOf(pc) - PageOf(to);
    assert -0x100_0000_0000 < d <= -0x80_3FE0_0000;
    SignedIsUnique(d, TWO64, d, 0);
  }

  // ----- the bound is exact -----

  /** Calls and a final CBZ, every target and the return address out of short reach. */
  ghost predicate AllFar(orig: seq<Instr>, addr: U64, rx: U64, capacity: nat)
  {
    && orig != [] && Supported(orig)
    && (forall k :: 0 <= k < |orig| ==>
          && (if k < |orig| - 1 then orig[k].Bl? else orig[k].Cb?)
          && FarFrom(rx, capacity, TargetOf(orig[k], AddressOf(addr, k))))
    && FarFrom(rx, capacity, AddressOf(addr, |orig|))
  }

  /** A far branch costs two words at either end. */
  lemma FarBranchCosts(b: Buf, rx: U64, to: U64, link: bool, e: Buf)
    requires FarFrom(rx, |b.slots|, to) && EmitBranch(b, rx, true, to, link) == Some(e)
    ensures |e.slots| == |b.slots| && e.size == b.size + 2 && e.cap == b.cap - 2
  {
    NotNear(b, rx, to);
  }

  lemma FarStepCosts(b: Buf, rx: U64, orig: seq<Instr>, addr: U64, k: nat, next: Buf)
    requires k < |orig| && AllFar(orig, addr, rx, |b.slots|)
    requires Relocate(b, rx, orig[k], AddressOf(addr, k), k == |orig| - 1) == Some(next)
    ensures |next.slots| == |b.slots| && next.cap == b.cap - 2
    ensures next.size == b.size + if k < |orig| - 1 then 2 else 3
  {
    var i, to := orig[k], TargetOf(orig[k], AddressOf(addr, k));
    if k < |orig| - 1 {
      FarBranchCosts(b, rx, to, true, next);
    } else {
      var reserved := Add(b, Lit(0)).value;
      FarBranchCosts(reserved, rx, to, false, EmitBranch(reserved, rx, true, to, false).value);
    }
  }

  lemma {:induction false} FarListCosts(b: Buf, rx: U64, orig: seq<Instr>, addr: U64, k: nat, e: Buf)
    requires k <= |orig| && AllFar(orig, addr, rx, |b.slots|)
    requires RelocateFrom(b, rx, orig, addr, AddressOf(addr, |orig|), k) == Some(e)
    ensures |e.slots| == |b.slots| && e.size > 0 && e.cap < b.cap
    ensures e.cap - e.size == b.cap - b.size - 4 * (|orig| - k) - if k < |orig| then 5 else 4
    decreases |orig| - k
  {
    if k == |orig| {
      FarBranchCosts(b, rx, AddressOf(addr, |orig|), false, e);
    } else {
      var next := Relocate(b, rx, orig[k], AddressOf(addr, k), k == |orig| - 1).value;
      FarStepCosts(b, rx, orig, addr, k, next);
      FarListCosts(next, rx, orig, addr, k + 1, e);
    }
  }

  ghost predicate WellPlacedIn(orig: seq<Instr>, addr: U64, rx: U64, capacity: nat)
  {
    addr % 4 == 0 && addr + 4 * |orig| < TWO64 && rx % 4 == 0 && rx + 4 * capacity < TWO64
  }

  /** The relocator accepts and no literal is overwritten. */
  ghost predicate Fits(orig: seq<Instr>, addr: U64, capacity: nat, rx: U64)
  {
    Backup(orig, addr, capacity, rx).Some? && Intact(Backup(orig, addr, capacity, rx).value)
  }

  /** Every list of `n` supported instructions fits `capacity` words, wherever both are. */
  ghost predicate AlwaysFits(n: nat, capacity: nat)
  {
    forall orig: seq<Instr>, addr: U64, rx: U64 ::
      |orig| == n && Supported(orig) && WellPlacedIn(orig, addr, rx, capacity) ==> Fits(orig, addr, capacity, rx)
  }

  lemma FarListDoesNotFit(orig: seq<Instr>, addr: U64, rx: U64, capacity: nat)
    requires AllFar(orig, addr, rx, capacity) && WellPlacedIn(orig, addr, rx, capacity) && capacity <= 4 * |orig| + 5
    ensures !Fits(orig, addr, capacity, rx)
  {
    BackupIsLoop(orig, addr, capacity, rx);
    var e := Backup(orig, addr, capacity, rx);
    if e.Some? {
      FarListCosts(EmptyBuf(capacity), rx, orig, addr, 0, e.value);
    }
  }

  lemma FarListExists(n: nat, capacity: nat) returns (orig: seq<Instr>, addr: U64, rx: U64)
    requires 0 < n < TWO32 && capacity < TWO16
    ensures |orig| == n && AllFar(orig, addr, rx, capacity) && WellPlacedIn(orig, addr, rx, capacity)
  {
    orig := seq(n, k => if k < n - 1 then Bl(0) else Cb(false, true, 0, 0));
    addr, rx := 0x80_4000_0000, 0x10_0000;
    forall k | 0 <= k < n
      ensures FarFrom(rx, capacity, TargetOf(orig[k], AddressOf(addr, k)))
    {
      SelfBranchIsFar(orig[k], k, capacity);
    }
    AddressAligned(addr, n);
    FarExample(addr + 4 * n, capacity);
  }

  /** The bound is exact: a buffer is always enough for n instructions if and only if it has more
      than 4 n + 5 words. */
  lemma BackupFitsExactly(n: nat, capacity: nat)
    requires 0 < n < TWO32 && capacity < TWO16
    ensures AlwaysFits(n, capacity) <==> 4 * n + 5 < capacity
  {
    if 4 * n + 5 < capacity {
      forall orig: seq<Instr>, addr: U64, rx: U64
        | |orig| == n && Supported(orig) && WellPlacedIn(orig, addr, rx, capacity)
        ensures Fits(orig, addr, capacity, rx)
      {
        BackupFits(orig, addr, capacity, rx);
      }
    } else {
      var orig, addr, rx := FarListExists(n, capacity);
      FarListDoesNotFit(orig, addr, rx, capacity);
    }
  }

  // ----- the zero register -----

  /** Forming an address in register 31 changes nothing in place. Relocated, it changes nothing
      if and only if ADR reaches the address, or ADRP does not, or the address is a page:
      otherwise the ADD behind the ADRP moves the stack pointer by the offset in the page. */
  lemma ZeroRegisterMove(env: Env, code: Code, b: Buf, literals: bool, value: U64, s: State) returns (n: nat, t: State)
    requires Placed(code) && |b.slots| == |code.slots|
    requires EmitMov(b, code.base, literals, ZR, value).Some?
    requires var b' := EmitMov(b, code.base, literals, ZR, value).value; Intact(b') && Extends(code.slots, b')
    ensures Run(env, code, n, At(AddressOf(code.base, b.size), s))
         == At(AddressOf(code.base, EmitMov(b, code.base, literals, ZR, value).value.size), t)
    ensures t == s <==>
              AdrReaches(Pc(b, code.base), value) || !AdrpReaches(Pc(b, code.base), value) || value % TWO12 == 0
    ensures t != s ==> t == s.(sp := Wrap64(s.sp + value % TWO12))
  {
    n := EmitMovRuns(env, code, b, literals, ZR, value, s);
    t := Moved(s, ZR, value, Pc(b, code.base));
    if MovesStack(Pc(b, code.base), value) {
      InstrUtil.WrapDiffers(s.sp, value % TWO12);
    }
  }

  // ----- the jump a hook writes over the originals -----

  /** Words a level-2 hook may overwrite (`cHookMaxOverwriteSize`). */
  const OVERWRITE_WORDS: nat := 5

  lemma {:induction false} MovksFit(b: Buf, reg: Reg, value: U64, pc: U64, i: nat)
    requires i <= 4 && b.size + Mismatches(value, pc, i) <= b.cap
    ensures var e := EmitMovks(b, reg, value, pc, i);
            e.Some? && e.value.size == b.size + Mismatches(value, pc, i) && e.value.cap == b.cap
    decreases 4 - i
  {
    if i < 4 {
      if Chunk(value, i) == Chunk(pc, i) {
        MovksFit(b, reg, value, pc, i + 1);
      } else {
        MovksFit(Add(b, Ins(Movk(reg, Chunk(value, i), i))).value, reg, value, pc, i + 1);
      }
    }
  }

  lemma {:induction false} MismatchesBound(value: U64, pc: U64, i: nat)
    requires i <= 4
    ensures Mismatches(value, pc, i) <= 4 - i
    ensures (exists j :: i <= j < 4 && Chunk(value, j) == Chunk(pc, j)) ==> Mismatches(value, pc, i) <= 3 - i
    decreases 4 - i
  {
    if i < 4 {
      MismatchesBound(value, pc, i + 1);
    }
  }

  /** The jump to the hook always fits the five words that may be overwritten. */
  lemma HookJumpFits(at: U64, to: U64)
    ensures EmitBranch(EmptyBuf(OVERWRITE_WORDS), at, false, to, false).Some?
  {
    var b := EmptyBuf(OVERWRITE_WORDS);
    var pc := Pc(b, at);
    if !BranchReaches(pc, to) && !AdrReaches(pc, to) && !AdrpReaches(pc, to) {
      MismatchesBound(to, pc, 0);
      if SomeChunkMatches(to, pc) {
        MovksFit(SelfAddressed(b, at, IP0), IP0, to, pc, 0);
      } else {
        MovksFit(b, IP0, to, pc, 0);
      }
    }
  }

  /** Entering hooked code arrives at the hook with nothing changed but IP0, at any distance. */
  lemma HookJumpArrives(env: Env, code: Code, e: Buf, to: U64, s: State) returns (n: nat)
    requires Placed(code) && |code.slots| == OVERWRITE_WORDS && to % 4 == 0
    requires EmitBranch(EmptyBuf(OVERWRITE_WORDS), code.base, false, to, false) == Some(e)
    requires |e.slots| == |code.slots| && code.slots[..e.size] == e.slots[..e.size]
    ensures Run(env, code, n, At(code.base, s)) == At(to, Detour(s, code.base, to))
  {
    var b := EmptyBuf(OVERWRITE_WORDS);
    EmitBranchGrows(b, code.base, false, to, false);
    PlainKeepsReach(b, code.base, to, e);
    assert AddressOf(code.base, b.size) == code.base;
    n := EmitJumpRuns(env, code, b, false, to, s);
  }

  lemma {:induction false} MovksKeepReach(b: Buf, reg: Reg, value: U64, pc: U64, i: nat)
    requires i <= 4
    ensures var e := EmitMovks(b, reg, value, pc, i); e.Some? ==> e.value.cap == b.cap
    decreases 4 - i
  {
    if i < 4 {
      if Chunk(value, i) == Chunk(pc, i) {
        MovksKeepReach(b, reg, value, pc, i + 1);
      } else {
        var next := Add(b, Ins(Movk(reg, Chunk(value, i), i)));
        if next.Some? {
          MovksKeepReach(next.value, reg, value, pc, i + 1);
        }
      }
    }
  }

  /** Without literals nothing is taken from the end of the buffer. */
  lemma PlainKeepsReach(b: Buf, rx: U64, to: U64, e: Buf)
    requires EmitBranch(b, rx, false, to, false) == Some(e)
    ensures e.cap == b.cap
  {
    var pc := Pc(b, rx);
    MovksKeepReach(b, IP0, to, pc, 0);
    if b.size < b.cap {
      MovksKeepReach(SelfAddressed(b, rx, IP0), IP0, to, pc, 0);
    }
  }
}
