/** `readADRPGlobal` of hakkun/include/hk/hook/InstrUtil.h on every pair of instruction words: which
    words it takes, by the encodings of section C4.1 of the Arm Architecture Reference Manual, and
    what it returns for them. */
module AdrpReader {
  import opened InstrUtil
  import opened Words

  // ----- encodings -----

  /** ADRP: two low and 19 high immediate bits, and a register. */
  datatype Adrp = Adrp(immlo: nat, immhi: nat, rd: nat) {
    predicate Fits() { immlo < 4 && immhi < 0x8_0000 && rd < 32 }
    function Word(): nat { 0x9000_0000 + immlo * 0x2000_0000 + immhi * 0x20 + rd }
  }

  /** LDR (unsigned offset) of a general register of 64 or 32 bits, and ADD (immediate) on 64- or
      32-bit registers, its immediate shifted by 12 or not. */
  datatype Low =
    | Ldr(wide: bool, imm12: nat, rn: nat, rt: nat)
    | Add(wide: bool, shifted: bool, imm12: nat, rn: nat, rd: nat) {
    predicate Fits() { imm12 < 0x1000 && rn < 32 && (Ldr? ==> rt < 32) && (Add? ==> rd < 32) }

    function Word(): nat
    {
      match this
      case Ldr(wide, imm12, rn, rt) => (if wide then 0xF940_0000 else 0xB940_0000) + imm12 * 0x400 + rn * 0x20 + rt
      case Add(wide, shifted, imm12, rn, rd) =>
        0x1100_0000 + (if wide then 0x8000_0000 else 0) + (if shifted then 0x40_0000 else 0)
          + imm12 * 0x400 + rn * 0x20 + rd
    }
  }

  // ----- ADRP words -----

  lemma AdrpIsTaken(f: Adrp)
    requires f.Fits()
    ensures f.Word() < TWO32 && IsAdrp(f.Word())
    ensures ReadOffset(f.Word()) == (f.immhi % 0x4_0000 * 4 + f.immlo) * 0x1000
  {
    var w := f.Word();
    DivModUnique(w, 0x8000_0000, 1, 0x1000_0000 + f.immlo * 0x2000_0000 + f.immhi * 0x20 + f.rd);
    DivModUnique(w, 0x100_0000, 0x90 + f.immlo * 0x20, f.immhi * 0x20 + f.rd);
    DivModUnique(w, 0x20, 0x480_0000 + f.immlo * 0x100_0000 + f.immhi, f.rd);
    DivModUnique(w / 0x20, 0x4_0000, 0x120 + f.immlo * 0x40 + f.immhi / 0x4_0000, f.immhi % 0x4_0000);
    DivModUnique(w, 0x2000_0000, 4 + f.immlo, 0x1000_0000 + f.immhi * 0x20 + f.rd);
  }

  lemma TakenIsAdrp(w: U32) returns (f: Adrp)
    requires IsAdrp(w)
    ensures f.Fits() && f.Word() == w
  {
    var top, low := w / 0x100_0000, w % 0x100_0000;
    DivModUnique(w, 0x8000_0000, top / 0x80, top % 0x80 * 0x100_0000 + low);
    f := Adrp(top / 0x20 % 4, low / 0x20, low % 0x20);
    assert top == 0x80 + top / 0x20 % 4 * 0x20 + 0x10;
  }

  // ----- the words behind it -----

  lemma LdrIsTaken(f: Low)
    requires f.Fits() && f.Ldr?
    ensures f.Word() < TWO32 && IsLdrUnsigned(f.Word()) && LdrAddend(f.Word()) == f.imm12 * if f.wide then 8 else 4
  {
    var w, operands, size := f.Word(), f.rn * 0x20 + f.rt, if f.wide then 3 else 2;
    DivModUnique(w, 0x40_0000, 0x2E5 + (size - 2) * 0x100, f.imm12 * 0x400 + operands);
    DivModUnique(w, 0x8000_0000, 1, 0x3940_0000 + (size - 2) * 0x4000_0000 + f.imm12 * 0x400 + operands);
    DivModUnique(w, 0x4000_0000, size, 0x3940_0000 + f.imm12 * 0x400 + operands);
    DivModUnique(w, 0x400, 0x2E_5000 + (size - 2) * 0x10_0000 + f.imm12, operands);
    DivModUnique(w / 0x400, TWO12, 0x2E5 + (size - 2) * 0x100, f.imm12);
    assert Pow2(3) == 8 && Pow2(2) == 4;
  }

  lemma TakenIsLdr(w: U32) returns (f: Low)
    requires IsLdrUnsigned(w)
    ensures f.Fits() && f.Ldr? && f.Word() == w
  {
    var top, low := w / 0x40_0000, w % 0x40_0000;
    DivModUnique(w, 0x8000_0000, top / 0x200, top % 0x200 * 0x40_0000 + low);
    f := Ldr(top / 0x100 == 3, low / 0x400, low % 0x400 / 0x20, low % 0x20);
    assert top == 0x200 + (top / 0x100 - 2) * 0x100 + 0xE5;
    FieldsOf(low);
  }

  lemma FieldsOf(low: nat)
    requires low < 0x40_0000
    ensures low == low / 0x400 * 0x400 + low % 0x400 / 0x20 * 0x20 + low % 0x20 && low / 0x400 < 0x1000
  {
    DivModUnique(low, 0x20, low / 0x400 * 0x20 + low % 0x400 / 0x20, low % 0x400 % 0x20);
  }

  lemma AddIsTaken(f: Low)
    requires f.Fits() && f.Add?
    ensures f.Word() < TWO32 && !IsLdrUnsigned(f.Word()) && IsAddImmediate(f.Word())
    ensures AddAddend(f.Word()) == f.imm12 * if f.shifted then 0x1000 else 1
  {
    var w, operands := f.Word(), f.rn * 0x20 + f.rd;
    var sf, sh := if f.wide then 1 else 0, if f.shifted then 1 else 0;
    DivModUnique(w, 0x40_0000, 0x44 + sf * 0x200 + sh, f.imm12 * 0x400 + operands);
    DivModUnique(w, 0x80_0000, 0x22 + sf * 0x100, sh * 0x40_0000 + f.imm12 * 0x400 + operands);
    DivModUnique(w, 0x400, 0x4_4000 + sf * 0x20_0000 + sh * 0x1000 + f.imm12, operands);
    DivModUnique(w / 0x400, TWO12, 0x44 + sf * 0x200 + sh, f.imm12);
  }

  lemma TakenIsAdd(w: U32) returns (f: Low)
    requires IsAddImmediate(w)
    ensures f.Fits() && f.Add? && f.Word() == w
  {
    var top, low := w / 0x40_0000, w % 0x40_0000;
    DivModUnique(w, 0x80_0000, top / 2, top % 2 * 0x40_0000 + low);
    f := Add(top / 0x200 == 1, top % 2 == 1, low / 0x400, low % 0x400 / 0x20, low % 0x20);
    assert top == top / 0x200 * 0x200 + 0x44 + top % 2;
    FieldsOf(low);
  }

  // ----- the reader -----

  /** The page the reader forms: it drops the top immediate bit. */
  function SeenPage(pc: U64, f: Adrp): nat { (pc - pc % 0x1000 + (f.immhi % 0x4_0000 * 4 + f.immlo) * 0x1000) % TWO64 }

  /** What the reader returns for a pair it takes: for ADD the sum, for LDR the 64-bit word at the
      sum, whatever the width of the load, or a refusal when that is not readable. */
  function Expected(pc: U64, f: Adrp, g: Low, load: U64 -> Cell): ReadResult
  {
    match g
    case Ldr(wide, imm12, _, _) => Fetched(load((SeenPage(pc, f) + imm12 * (if wide then 8 else 4)) % TWO64))
    case Add(_, shifted, imm12, _, _) => Address((SeenPage(pc, f) + imm12 * (if shifted then 0x1000 else 1)) % TWO64)
  }

  lemma ReaderGives(pc: U64, f: Adrp, g: Low, load: U64 -> Cell)
    requires f.Fits() && g.Fits()
    ensures f.Word() < TWO32 && g.Word() < TWO32
    ensures ReadAdrpGlobal(pc, f.Word(), g.Word(), load) == Expected(pc, f, g, load)
  {
    AdrpIsTaken(f);
    if g.Ldr? {
      LdrIsTaken(g);
      GivesLdr(pc, f.Word(), g.Word(), ReadOffset(f.Word()), LdrAddend(g.Word()), load);
    } else {
      AddIsTaken(g);
      GivesAdd(pc, f.Word(), g.Word(), ReadOffset(f.Word()), AddAddend(g.Word()), load);
    }
  }

  lemma GivesLdr(pc: U64, adrp: U32, lo: U32, offset: nat, addend: nat, load: U64 -> Cell)
    requires IsAdrp(adrp) && IsLdrUnsigned(lo) && offset == ReadOffset(adrp) && addend == LdrAddend(lo)
    ensures ReadAdrpGlobal(pc, adrp, lo, load)
         == Fetched(load(((pc - pc % 0x1000 + offset) % TWO64 + addend) % TWO64))
  {
    ReadsLdr(pc, adrp, lo, load);
    WrapTwice(PageOf(pc) + offset, addend);
  }

  lemma GivesAdd(pc: U64, adrp: U32, lo: U32, offset: nat, addend: nat, load: U64 -> Cell)
    requires IsAdrp(adrp) && !IsLdrUnsigned(lo) && IsAddImmediate(lo)
    requires offset == ReadOffset(adrp) && addend == AddAddend(lo)
    ensures ReadAdrpGlobal(pc, adrp, lo, load) == Address(((pc - pc % 0x1000 + offset) % TWO64 + addend) % TWO64)
  {
    ReadsAdd(pc, adrp, lo, load);
    WrapTwice(PageOf(pc) + offset, addend);
  }

  /** On all words: the reader takes exactly an ADRP with an LDR or ADD of these forms, and returns
      what is expected of them; it refuses every other pair. */
  lemma ReaderExactly(pc: U64, adrp: U32, lo: U32, load: U64 -> Cell)
    ensures ReadAdrpGlobal(pc, adrp, lo, load) != MismatchedInstruction
       <==> exists f: Adrp, g: Low :: f.Fits() && g.Fits() && f.Word() == adrp && g.Word() == lo
    ensures forall f: Adrp, g: Low :: f.Fits() && g.Fits() && f.Word() == adrp && g.Word() == lo ==>
              ReadAdrpGlobal(pc, adrp, lo, load) == Expected(pc, f, g, load)
  {
    forall f: Adrp, g: Low | f.Fits() && g.Fits() && f.Word() == adrp && g.Word() == lo
      ensures ReadAdrpGlobal(pc, adrp, lo, load) == Expected(pc, f, g, load) != MismatchedInstruction
    {
      ReaderGives(pc, f, g, load);
    }
    if IsAdrp(adrp) && (IsLdrUnsigned(lo) || IsAddImmediate(lo)) {
      var f := TakenIsAdrp(adrp);
      var g := TakenIsLow(lo);
      assert f.Fits() && g.Fits() && f.Word() == adrp && g.Word() == lo;
    }
  }

  lemma TakenIsLow(w: U32) returns (g: Low)
    requires IsLdrUnsigned(w) || IsAddImmediate(w)
    ensures g.Fits() && g.Word() == w
  {
    if IsLdrUnsigned(w) {
      g := TakenIsLdr(w);
    } else {
      g := TakenIsAdd(w);
    }
  }
}
