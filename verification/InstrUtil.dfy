/** Branch encoders and the ADRP reader of hakkun/include/hk/hook/InstrUtil.h, on 32-bit
    instruction words, beside the decoding the Arm architecture gives those words. */
module InstrUtil {
  import opened Words

  /** AArch64 imm26 of a branch: the displacement is narrowed to s32 before it is divided. */
  function BranchField(pc: U64, to: U64): (f: nat)
    ensures f < TWO26
  {
    TruncDiv(S32(to - pc), 4) % TWO26
  }

  function MakeBranch(op: nat, pc: U64, to: U64): nat { op * TWO26 + BranchField(pc, to) }

  /** Where an AArch64 B or BL at `pc` goes. */
  function BranchTarget(word: nat, pc: U64): U64
  {
    Wrap64(pc + 4 * SignExtend(word % TWO26, TWO26))
  }

  function BranchFieldA32(pc: U32, to: U32): (f: nat)
    ensures f < TWO24
  {
    TruncDiv(S32(S32(to - pc) - 8), 4) % TWO24
  }

  function MakeBranchA32(op: nat, pc: U32, to: U32): nat { op * TWO24 + BranchFieldA32(pc, to) }

  /** Where an AArch32 B or BL at `pc` goes; the architectural PC reads 8 ahead. */
  function BranchTargetA32(word: nat, pc: U32): U32
  {
    (pc + 8 + 4 * SignExtend(word % TWO24, TWO24)) % TWO32
  }

  predicate Aligned(a: int) { a % 4 == 0 }

  /** What one field of `fieldMod` values can carry of a distance known modulo `full`. */
  lemma NarrowedDistance(distance: int, narrowed: int, k1: int, m: int, full: int, step: int, fieldMod: int)
    returns (k: int, e: int)
    requires fieldMod > 0 && fieldMod % 2 == 0 && step == 4 * fieldMod && full == m * step
    requires distance == k1 * full + narrowed && narrowed % 4 == 0
    ensures e == SignExtend(TruncDiv(narrowed, 4) % fieldMod, fieldMod) && -(fieldMod / 2) <= e < fieldMod / 2
    ensures distance == 4 * e + k * step
  {
    var q := TruncDiv(narrowed, 4);
    assert narrowed == 4 * q;
    var k2 := SignedQuotient(q, fieldMod);
    k := k1 * m + k2;
    e := SignExtend(q % fieldMod, fieldMod);
    calc {
      distance;
      k1 * (m * step) + 4 * (k2 * fieldMod + e);
      { assert k1 * (m * step) == (k1 * m) * step; }
      { assert 4 * (k2 * fieldMod) == k2 * step; }
      4 * e + ((k1 * m) * step + k2 * step);
      4 * e + (k1 * m + k2) * step;
    }
  }

  lemma NarrowedAligned(x: int) returns (k: int)
    requires x % 4 == 0
    ensures x == k * 0x1_0000_0000 + S32(x) && S32(x) % 4 == 0
  {
    k := SignedQuotient(x, TWO32);
    DivModUnique(S32(x), 4, x / 4 - k * (TWO32 / 4), 0);
  }

  lemma FieldDistance(distance: int, narrowed: int, k1: int, m: int, step: int, fieldMod: int, field: nat)
    returns (k: int, d: int)
    requires fieldMod > 0 && fieldMod % 2 == 0 && step == 4 * fieldMod && 0x1_0000_0000 == m * step
    requires distance == k1 * 0x1_0000_0000 + narrowed && narrowed % 4 == 0 && field == TruncDiv(narrowed, 4) % fieldMod
    ensures d == 4 * SignExtend(field, fieldMod) && -(step / 2) <= d < step / 2 && distance == d + k * step
  {
    var e;
    k, e := NarrowedDistance(distance, narrowed, k1, m, 0x1_0000_0000, step, fieldMod);
    d := 4 * e;
  }

  lemma NarrowedOnce(pc: U64, to: U64) returns (k: int, narrowed: int)
    requires Aligned(pc) && Aligned(to)
    ensures BranchField(pc, to) == TruncDiv(narrowed, 4) % TWO26 && narrowed % 4 == 0
    ensures to - pc == k * 0x1_0000_0000 + narrowed
  {
    k := NarrowedAligned(to - pc);
    narrowed := S32(to - pc);
  }

  lemma BranchFieldDistance(pc: U64, to: U64) returns (k: int, d: int)
    requires Aligned(pc) && Aligned(to)
    ensures d == 4 * SignExtend(BranchField(pc, to), TWO26) && -0x800_0000 <= d < 0x800_0000
    ensures to - pc == d + k * 0x1000_0000
  {
    var j, narrowed := NarrowedOnce(pc, to);
    k, d := FieldDistance(to - pc, narrowed, j, 16, 0x1000_0000, TWO26, BranchField(pc, to));
  }

  /** The displacement field leads to the target exactly when the displacement fits. */
  lemma BranchFieldReaches(pc: U64, to: U64)
    requires Aligned(pc) && Aligned(to)
    ensures Wrap64(pc + 4 * SignExtend(BranchField(pc, to), TWO26)) == to
       <==> -0x800_0000 <= S64(to - pc) < 0x800_0000
  {
    var k, d := BranchFieldDistance(pc, to);
    ReachesIffFits(pc, to, d, 0x1000_0000, 0x10_0000_0000, TWO64, k);
  }

  /** Encoding then decoding a branch reaches the target exactly when the displacement fits. */
  lemma BranchRoundTrip(op: nat, pc: U64, to: U64)
    requires Aligned(pc) && Aligned(to)
    ensures MakeBranch(op, pc, to) / TWO26 == op
    ensures BranchTarget(MakeBranch(op, pc, to), pc) == to
       <==> -0x800_0000 <= S64(to - pc) < 0x800_0000
  {
    BranchFieldReaches(pc, to);
    DivModUnique(MakeBranch(op, pc, to), TWO26, op, BranchField(pc, to));
  }

  /** A displacement `d` known modulo `m` reaches `to` exactly when the true distance fits. */
  lemma ReachesIffFits(pc: int, to: int, d: int, m: int, r: int, addresses: int, k: int)
    requires m > 0 && m % 2 == 0 && addresses % 2 == 0 && addresses == r * m && m < addresses
    requires 0 <= to < addresses
    requires -(m / 2) <= d < m / 2 && to - pc == d + k * m
    ensures (pc + d) % addresses == to
       <==> -(m / 2) <= SignExtend((to - pc) % addresses, addresses) < m / 2
  {
    var k3 := SignedQuotient(to - pc, addresses);
    var s := SignExtend((to - pc) % addresses, addresses);
    if (pc + d) % addresses == to {
      ReachImpliesFit(pc, to, d, addresses);
    }
    if -(m / 2) <= s < m / 2 {
      SameResidue(to - pc, s, d, m, r, k3, k);
      DivModUnique(pc + d, addresses, -k3, to);
    }
  }

  lemma ReachImpliesFit(pc: int, to: int, d: int, addresses: int)
    requires addresses > 0 && addresses % 2 == 0 && -(addresses / 2) <= d < addresses / 2
    requires (pc + d) % addresses == to
    ensures SignExtend((to - pc) % addresses, addresses) == d
  {
    var k4 := (pc + d) / addresses;
    assert pc + d == k4 * addresses + to;
    SignedIsUnique(to - pc, addresses, d, -k4);
  }

  lemma SameResidue(x: int, s: int, t: int, m: int, r: int, k: int, j: int)
    requires x == k * (r * m) + s && x == t + j * m && -m < s - t < m
    ensures s == t
  {
    assert k * (r * m) == (k * r) * m;
    assert (j - k * r) * m == j * m - (k * r) * m;
    SmallMultipleIsZero(s - t, j - k * r, m);
  }

  /** Narrowing, taking off the pipeline offset and narrowing again. */
  lemma NarrowedTwice(pc: U32, to: U32) returns (k: int, narrowed: int)
    requires Aligned(pc) && Aligned(to)
    ensures BranchFieldA32(pc, to) == TruncDiv(narrowed, 4) % TWO24 && narrowed % 4 == 0
    ensures to - pc - 8 == k * 0x1_0000_0000 + narrowed
  {
    var once := S32(to - pc);
    var k0 := NarrowedAligned(to - pc);
    var k1 := NarrowedAligned(once - 8);
    k, narrowed := k0 + k1, S32(once - 8);
  }

  lemma BranchFieldDistanceA32(pc: U32, to: U32) returns (k: int, d: int)
    requires Aligned(pc) && Aligned(to)
    ensures d == 4 * SignExtend(BranchFieldA32(pc, to), TWO24) && -0x200_0000 <= d < 0x200_0000
    ensures to - pc - 8 == d + k * 0x400_0000
  {
    var j, narrowed := NarrowedTwice(pc, to);
    k, d := FieldDistance(to - pc - 8, narrowed, j, 64, 0x400_0000, TWO24, BranchFieldA32(pc, to));
  }

  lemma BranchFieldReachesA32(pc: U32, to: U32)
    requires Aligned(pc) && Aligned(to)
    ensures (pc + 8 + 4 * SignExtend(BranchFieldA32(pc, to), TWO24)) % TWO32 == to
       <==> -0x200_0000 <= S32(to - pc - 8) < 0x200_0000
  {
    var k, d := BranchFieldDistanceA32(pc, to);
    var from := pc + 8;
    assert to - pc - 8 == to - from;
    ReachesIffFits(from, to, d, 0x400_0000, 64, TWO32, k);
  }

  lemma BranchRoundTripA32(op: nat, pc: U32, to: U32)
    requires Aligned(pc) && Aligned(to)
    ensures MakeBranchA32(op, pc, to) / TWO24 == op
    ensures BranchTargetA32(MakeBranchA32(op, pc, to), pc) == to
       <==> -0x200_0000 <= S32(to - pc - 8) < 0x200_0000
  {
    BranchFieldReachesA32(pc, to);
    DivModUnique(MakeBranchA32(op, pc, to), TWO24, op, BranchFieldA32(pc, to));
  }

  // ----- reading the address an ADRP pair forms -----

  datatype ReadResult = Address(value: U64) | MismatchedInstruction | InvalidRead

  /** A readable 64-bit word at an address, if the address is mapped readable. */
  datatype Cell = Unreadable | Readable(word: U64)

  /** The byte offset `readADRPGlobal` takes from an ADRP word: immhi is cut to 18 bits. */
  function ReadOffset(adrp: U32): (offset: nat)
    ensures offset < TWO32
  {
    var immhi := adrp / 0x20 % 0x4_0000;
    var immlo := adrp / 0x2000_0000 % 4;
    (immhi * 4 + immlo) * TWO12
  }

  predicate IsAdrp(w: U32) { w / 0x8000_0000 % 2 == 1 && w / 0x100_0000 % 32 == 0x10 }

  predicate IsLdrUnsigned(w: U32) { w / 0x8000_0000 % 2 == 1 && w / 0x40_0000 % 256 == 0xE5 }

  predicate IsAddImmediate(w: U32) { w / 0x80_0000 % 256 == 0x22 }

  function LdrAddend(w: U32): nat { w / 0x400 % TWO12 * Pow2(w / 0x4000_0000 % 4) }

  function AddAddend(w: U32): nat
  {
    var imm12 := w / 0x400 % TWO12;
    if w / 0x40_0000 % 2 == 1 then imm12 * TWO12 else imm12
  }

  /** `readADRPGlobal`: bit 32 of the offset is what its sign extension looks at. */
  function ReadAdrpGlobal(pc: U64, adrp: U32, lo: U32, load: U64 -> Cell): ReadResult
  {
    if !IsAdrp(adrp) then MismatchedInstruction
    else
      var offset := ReadOffset(adrp);
      var extended := if offset / TWO32 % 2 == 1 then BitOr(offset, 0xFFF0_0000) else offset;
      var page := Wrap64(PageOf(pc) + extended);
      if IsLdrUnsigned(lo) then
        match load(Wrap64(page + LdrAddend(lo)))
        case Unreadable => InvalidRead
        case Readable(word) => Address(word)
      else if IsAddImmediate(lo) then Address(Wrap64(page + AddAddend(lo)))
      else MismatchedInstruction
  }

  /** ADRP rd, page: section C6.2 of the Arm Architecture Reference Manual. */
  function EncodeAdrp(rd: nat, pages: int): (w: U32)
    requires rd < 32
  {
    var imm := pages % TWO21;
    0x9000_0000 + imm % 4 * 0x2000_0000 + imm / 4 * 0x20 + rd
  }

  /** ADD rd, rn, #imm12 (64-bit, unshifted): section C6.2 of the Arm Architecture Reference Manual. */
  function EncodeAdd(rd: nat, rn: nat, imm12: nat): (w: U32)
    requires rd < 32 && rn < 32 && imm12 < TWO12
  {
    0x9100_0000 + imm12 * 0x400 + rn * 0x20 + rd
  }

  /** LDR rt, [rn, #8 * imm12] (64-bit, unsigned offset). */
  function EncodeLdr(rt: nat, rn: nat, imm12: nat): (w: U32)
    requires rt < 32 && rn < 32 && imm12 < TWO12
  {
    0xF940_0000 + imm12 * 0x400 + rn * 0x20 + rt
  }

  lemma AdrpFields(rd: nat, pages: int)
    requires rd < 32
    ensures IsAdrp(EncodeAdrp(rd, pages))
    ensures ReadOffset(EncodeAdrp(rd, pages)) == pages % TWO20 * TWO12
  {
    var imm, w := pages % TWO21, EncodeAdrp(rd, pages);
    var lo, hi := imm % 4, imm / 4;
    var top, rest := hi / 0x4_0000, hi % 0x4_0000;
    assert w == 0x9000_0000 + lo * 0x2000_0000 + hi * 0x20 + rd;
    DivModUnique(w, 0x8000_0000, 1, 0x1000_0000 + lo * 0x2000_0000 + hi * 0x20 + rd);
    DivModUnique(w, 0x100_0000, 0x90 + lo * 0x20, hi * 0x20 + rd);
    DivModUnique(w, 0x20, 0x480_0000 + lo * 0x100_0000 + hi, rd);
    DivModUnique(w / 0x20, 0x4_0000, 0x120 + lo * 0x40 + top, rest);
    DivModUnique(w, 0x2000_0000, 4 + lo, 0x1000_0000 + hi * 0x20 + rd);
    var q := pages / TWO21;
    DivModUnique(pages, TWO20, 2 * q + top, 4 * rest + lo);
  }

  lemma AddFields(rd: nat, rn: nat, imm12: nat)
    requires rd < 32 && rn < 32 && imm12 < TWO12
    ensures var w := EncodeAdd(rd, rn, imm12);
            !IsLdrUnsigned(w) && IsAddImmediate(w) && AddAddend(w) == imm12
  {
    var w := EncodeAdd(rd, rn, imm12);
    DivModUnique(w, 0x40_0000, 0x244, imm12 * 0x400 + rn * 0x20 + rd);
    DivModUnique(w, 0x80_0000, 0x122, imm12 * 0x400 + rn * 0x20 + rd);
    DivModUnique(w, 0x400, 0x24_4000 + imm12, rn * 0x20 + rd);
  }

  lemma LdrFields(rt: nat, rn: nat, imm12: nat)
    requires rt < 32 && rn < 32 && imm12 < TWO12
    ensures IsLdrUnsigned(EncodeLdr(rt, rn, imm12)) && LdrAddend(EncodeLdr(rt, rn, imm12)) == 8 * imm12
  {
    var w, operands := EncodeLdr(rt, rn, imm12), rn * 0x20 + rt;
    DivModUnique(w, 0x40_0000, 0x3E5, imm12 * 0x400 + operands);
    DivModUnique(w, 0x8000_0000, 1, 0x7940_0000 + imm12 * 0x400 + operands);
    DivModUnique(w, 0x4000_0000, 3, 0x3940_0000 + imm12 * 0x400 + operands);
    DivModUnique(w, 0x400, 0x3E_5000 + imm12, operands);
    DivModUnique(0x3E_5000 + imm12, TWO12, 0x3E5, imm12);
    assert Pow2(3) == 8;
  }

  /** The address ADRP + ADD form in a program for a page delta the instruction can encode. */
  function AdrpAddTarget(pc: U64, pages: int, low: nat): U64
  {
    Wrap64(PageOf(pc) + pages * TWO12 + low)
  }

  lemma WrapDiffers(a: int, d: nat)
    requires 0 < d < TWO64
    ensures Wrap64(a) != Wrap64(a + d)
  {
    var k, j := a / TWO64, (a + d) / TWO64;
    if Wrap64(a) == Wrap64(a + d) {
      assert d == (j - k) * TWO64;
      SmallMultipleIsZero(d, j - k, TWO64);
    }
  }

  /** What the reader does once both words are recognised: the sign extension never applies. */
  lemma ReadsAdd(pc: U64, adrp: U32, lo: U32, load: U64 -> Cell)
    requires IsAdrp(adrp) && !IsLdrUnsigned(lo) && IsAddImmediate(lo)
    ensures ReadAdrpGlobal(pc, adrp, lo, load) == Address(Wrap64(PageOf(pc) + ReadOffset(adrp) + AddAddend(lo)))
  {
    DivModUnique(ReadOffset(adrp), TWO32, 0, ReadOffset(adrp));
    WrapTwice(PageOf(pc) + ReadOffset(adrp), AddAddend(lo));
  }

  lemma OffsetSeen(rd: nat, pages: int)
    requires rd < 32 && -0x10_0000 <= pages < 0x10_0000
    ensures IsAdrp(EncodeAdrp(rd, pages))
    ensures ReadOffset(EncodeAdrp(rd, pages)) == (if pages >= 0 then pages else pages + TWO20) * TWO12
  {
    AdrpFields(rd, pages);
    DivModUnique(pages, TWO20, if pages >= 0 then 0 else -1, if pages >= 0 then pages else pages + TWO20);
  }

  /** The reader returns the address the instruction pair forms if and only if the page delta
      is not negative: its sign extension is dead and the top immediate bit is dropped. */
  lemma ReadAdrpAddExact(pc: U64, rd: nat, rn: nat, pages: int, imm12: nat, load: U64 -> Cell)
    requires rd < 32 && rn < 32 && imm12 < TWO12
    requires -0x10_0000 <= pages < 0x10_0000
    ensures ReadAdrpGlobal(pc, EncodeAdrp(rd, pages), EncodeAdd(rd, rn, imm12), load)
         == Address(AdrpAddTarget(pc, pages, imm12))
       <==> pages >= 0
  {
    OffsetSeen(rd, pages);
    AddFields(rd, rn, imm12);
    ReadsAdd(pc, EncodeAdrp(rd, pages), EncodeAdd(rd, rn, imm12), load);
    if pages < 0 {
      WrapDiffers(PageOf(pc) + pages * TWO12 + imm12, TWO20 * TWO12);
    }
  }

  /** What a load of a memory cell gives. */
  function Fetched(cell: Cell): ReadResult
  {
    match cell
    case Unreadable => InvalidRead
    case Readable(word) => Address(word)
  }

  lemma ReadsLdr(pc: U64, adrp: U32, lo: U32, load: U64 -> Cell)
    requires IsAdrp(adrp) && IsLdrUnsigned(lo)
    ensures ReadAdrpGlobal(pc, adrp, lo, load) == Fetched(load(Wrap64(PageOf(pc) + ReadOffset(adrp) + LdrAddend(lo))))
  {
    DivModUnique(ReadOffset(adrp), TWO32, 0, ReadOffset(adrp));
    WrapTwice(PageOf(pc) + ReadOffset(adrp), LdrAddend(lo));
  }

  /** With an LDR as low instruction the reader fetches the 64-bit word at the address the pair
      refers to, or refuses when it is not readable; a negative page delta is taken 2^20 too high. */
  lemma ReadAdrpLdr(pc: U64, rd: nat, rt: nat, rn: nat, pages: int, imm12: nat, load: U64 -> Cell)
    requires rd < 32 && rt < 32 && rn < 32 && imm12 < TWO12 && -0x10_0000 <= pages < 0x10_0000
    ensures ReadAdrpGlobal(pc, EncodeAdrp(rd, pages), EncodeLdr(rt, rn, imm12), load)
         == Fetched(load(AdrpAddTarget(pc, if pages >= 0 then pages else pages + TWO20, 8 * imm12)))
  {
    OffsetSeen(rd, pages);
    LdrFields(rt, rn, imm12);
    LdrAt(pc, EncodeAdrp(rd, pages), EncodeLdr(rt, rn, imm12),
          if pages >= 0 then pages else pages + TWO20, 8 * imm12, load);
  }

  lemma LdrAt(pc: U64, adrp: U32, lo: U32, seen: int, addend: nat, load: U64 -> Cell)
    requires IsAdrp(adrp) && IsLdrUnsigned(lo) && ReadOffset(adrp) == seen * TWO12 && LdrAddend(lo) == addend
    ensures ReadAdrpGlobal(pc, adrp, lo, load) == Fetched(load(AdrpAddTarget(pc, seen, addend)))
  {
    ReadsLdr(pc, adrp, lo, load);
  }

  /** The reader fetches the word at the address the pair itself refers to. */
  ghost predicate FetchesOwn(pc: U64, rd: nat, rt: nat, rn: nat, pages: int, imm12: nat, load: U64 -> Cell)
    requires rd < 32 && rt < 32 && rn < 32 && imm12 < TWO12
  {
    ReadAdrpGlobal(pc, EncodeAdrp(rd, pages), EncodeLdr(rt, rn, imm12), load)
      == Fetched(load(AdrpAddTarget(pc, pages, 8 * imm12)))
  }

  /** In every memory that is the word of the pair's own address if and only if the page delta is
      not negative. */
  lemma ReadAdrpLdrExact(pc: U64, rd: nat, rt: nat, rn: nat, pages: int, imm12: nat)
    requires rd < 32 && rt < 32 && rn < 32 && imm12 < TWO12 && -0x10_0000 <= pages < 0x10_0000
    ensures (forall load: U64 -> Cell :: FetchesOwn(pc, rd, rt, rn, pages, imm12, load)) <==> pages >= 0
  {
    var target := AdrpAddTarget(pc, pages, 8 * imm12);
    if pages >= 0 {
      forall load: U64 -> Cell
        ensures FetchesOwn(pc, rd, rt, rn, pages, imm12, load)
      {
        ReadAdrpLdr(pc, rd, rt, rn, pages, imm12, load);
      }
    } else {
      var load: U64 -> Cell := a => if a == target then Unreadable else Readable(0);
      ReadAdrpLdr(pc, rd, rt, rn, pages, imm12, load);
      WrapDiffers(PageOf(pc) + pages * TWO12 + 8 * imm12, TWO20 * TWO12);
      assert !FetchesOwn(pc, rd, rt, rn, pages, imm12, load);
    }
  }
}
