/** The resolver over a loaded image: what the addresses it answers with are, told by the bytes in
    memory and by what the loaded modules export. */
module SailImage {
  import opened Hashing
  import opened Words
  import opened Options
  import opened SailDb
  import opened SailResolve
  import opened SailMeaning
  import SailCache
  import SailRun
  import DataBlock
  import ElfLookup
  import InstrUtil

  /** Memory, the addresses a word can be read at, and the modules in lookup order. */
  datatype Image = Image(byteAt: U64 -> U8, readable: U64 -> bool, exporters: seq<ElfLookup.Module>)

  function BytesAt(image: Image, start: U64, n: nat): (s: seq<U8>)
    ensures |s| == n
  {
    seq<U8>(n, k requires 0 <= k < n => image.byteAt(Wrap64(start + k)))
  }

  function WordAt(image: Image, at: U64, n: nat): (w: nat)
    requires n == 4 || n == 8
    ensures n == 4 ==> w < TWO32
    ensures n == 8 ==> w < TWO64
  {
    WordBelow(BytesAt(image, at, n));
    Pow2Values();
    Word(BytesAt(image, at, n))
  }

  function Load(image: Image): U64 -> InstrUtil.Cell
  {
    (a: U64) => if image.readable(a) then InstrUtil.Readable(WordAt(image, a, 8)) else InstrUtil.Unreadable
  }

  // ----- the environment the three readers make -----

  /** The first place the search looks at, from `off` on, that matches. */
  ghost function FirstMatch(memory: seq<U8>, data: seq<U8>, mask: seq<U8>, off: nat): (r: Option<nat>)
    requires off % 4 == 0
    ensures r.Some? ==> DataBlock.Searched(memory, |data|, r.value) && DataBlock.MatchesAt(memory, data, mask, r.value)
    ensures forall at: nat :: off <= at && DataBlock.Searched(memory, |data|, at) && (r.Some? ==> at < r.value) ==>
        !DataBlock.MatchesAt(memory, data, mask, at)
    decreases |memory| - off
  {
    if off + |data| >= |memory| then None
    else if DataBlock.MatchesAt(memory, data, mask, off) then Some(off)
    else FirstMatch(memory, data, mask, off + 4)
  }

  ghost function SearchIn(image: Image, pattern: Pattern, range: Range): U64
  {
    match FirstMatch(BytesAt(image, range.start, range.size), pattern.data, pattern.mask, 0)
    case Some(at) => Wrap64(range.start + at)
    case None => 0
  }

  /** The first module in order that defines a name with this hash. */
  function ExportedBy(h: Hashes, modules: seq<ElfLookup.Module>, murmur: U32): U64
  {
    if modules == [] then 0
    else
      match ElfLookup.Scan(h, modules[0], ElfLookup.ByMurmur(murmur), 0)
      case Some(i) => ElfLookup.Address(modules[0], i)
      case None => ExportedBy(h, modules[1..], murmur)
  }

  function ReadAt(image: Image, at: U64, lo: int): Option<U64>
  {
    match InstrUtil.ReadAdrpGlobal(at, WordAt(image, at, 4), WordAt(image, Wrap64(at + 4 * lo), 4), Load(image))
    case Address(v) => Some(v)
    case _ => None
  }

  ghost function EnvOf(h: Hashes, image: Image, modules: seq<Option<Module>>): Env
  {
    Env(modules,
        (elf, djb2, murmur) => ExportedBy(h, image.exporters, murmur),
        (pattern, range) => SearchIn(image, pattern, range),
        (at, lo) => ReadAt(image, at, lo))
  }

  // ----- the code computes it -----

  /** A region inside the address space, with room for the search to step past its end. */
  predicate InSpace(range: Range, n: nat)
  {
    n <= range.start + range.size <= TWO64 && range.start + range.size - n <= TWO64 - 4
  }

  /** The emitted search gives the environment's answer. */
  method Search(ghost h: Hashes, image: Image, ghost modules: seq<Option<Module>>, pattern: Pattern, range: Range)
    returns (address: U64)
    requires |pattern.data| == |pattern.mask| && InSpace(range, |pattern.data|)
    ensures address == EnvOf(h, image, modules).search(pattern, range)
  {
    var memory := BytesAt(image, range.start, range.size);
    address := DataBlock.Search(memory, range.start, pattern.data, pattern.mask);
    ghost var first := FirstMatch(memory, pattern.data, pattern.mask, 0);
    FoundIsFirst(memory, range.start, pattern.data, pattern.mask, address, first);
    SearchAnswers(image, pattern, range, address, first);
  }

  lemma FoundIsFirst(memory: seq<U8>, start: nat, data: seq<U8>, mask: seq<U8>, address: nat, first: Option<nat>)
    requires first == FirstMatch(memory, data, mask, 0)
    requires address == 0 ==>
      || (start == 0 && DataBlock.Searched(memory, |data|, 0) && DataBlock.MatchesAt(memory, data, mask, 0))
      || forall off: nat :: DataBlock.Searched(memory, |data|, off) ==> !DataBlock.MatchesAt(memory, data, mask, off)
    requires address != 0 ==>
      && address >= start && DataBlock.Searched(memory, |data|, address - start)
      && DataBlock.MatchesAt(memory, data, mask, address - start)
      && forall off: nat :: DataBlock.Searched(memory, |data|, off) && off < address - start ==>
           !DataBlock.MatchesAt(memory, data, mask, off)
    ensures address == if first.Some? then start + first.value else 0
  {
  }

  lemma SearchAnswers(image: Image, pattern: Pattern, range: Range, address: U64, first: Option<nat>)
    requires first == FirstMatch(BytesAt(image, range.start, range.size), pattern.data, pattern.mask, 0)
    requires address == if first.Some? then range.start + first.value else 0
    ensures address == SearchIn(image, pattern, range)
  {
  }

  /** The hash of a looked-up name tells it from all names of the modules. */
  ghost predicate TellsApart(h: Hashes, modules: seq<ElfLookup.Module>, name: string)
  {
    forall m :: m in modules ==> ElfLookup.Identifies(h, m, ElfLookup.ByMurmur(h.murmur(name)), name)
  }

  /** The loader's lookup by hashes gives the environment's answer. */
  method LookupExport(h: Hashes, image: Image, ghost modules: seq<Option<Module>>, target: string)
    returns (address: U64)
    requires forall m :: m in image.exporters ==> ElfLookup.WellFormedModule(h, m)
    requires TellsApart(h, image.exporters, target)
    ensures address == EnvOf(h, image, modules).exported(h.elf(target), h.djb2(target), h.murmur(target))
  {
    address := ElfLookup.LookupSymbolByHashes(
      h, image.exporters, h.elf(target), h.djb2(target), h.murmur(target), target);
    ExportedIsResolved(h, image.exporters, target);
  }

  lemma {:induction false} ExportedIsResolved(h: Hashes, modules: seq<ElfLookup.Module>, target: string)
    requires TellsApart(h, modules, target)
    ensures ExportedBy(h, modules, h.murmur(target)) == ElfLookup.Resolve(h, modules, target)
    decreases |modules|
  {
    if modules != [] {
      var byName := ElfLookup.Scan(h, modules[0], ElfLookup.ByName(target), 0);
      forall i: nat | i < |modules[0].symbols|
        ensures ElfLookup.Hit(h, modules[0], ElfLookup.ByMurmur(h.murmur(target)), i)
           <==> ElfLookup.Hit(h, modules[0], ElfLookup.ByName(target), i)
      {
        ElfLookup.IdentifiedHits(h, modules[0], ElfLookup.ByMurmur(h.murmur(target)), target, i);
      }
      if byName.Some? {
        ElfLookup.ScanIs(h, modules[0], ElfLookup.ByMurmur(h.murmur(target)), 0, byName.value);
      }
      ExportedIsResolved(h, modules[1..], target);
    }
  }

  // ----- what an address is -----

  /** The memory of a section: 1 is the text, 2 the read-only data, 3 the data, anything else is all
      three from the start of the text on. */
  predicate IsSection(m: Module, section: nat, start: U64, size: U64)
  {
    && (section == 1 ==> start == m.text.start && size == m.text.size)
    && (section == 2 ==> start == m.rodata.start && size == m.rodata.size)
    && (section == 3 ==> start == m.data.start && size == m.data.size)
    && (section !in {1, 2, 3} ==> start == m.text.start && size == (m.text.size + m.rodata.size + m.data.size) % TWO64)
  }

  /** `v` is the first searched place of the section that matches the pattern, plus the offset. */
  ghost predicate IsBlock(image: Image, kind: Kind, m: Module, v: U64)
    requires kind.DataBlock?
  {
    exists start: U64, size: U64 :: IsSection(m, kind.section, start, size) && IsFirstIn(image, kind, start, size, v)
  }

  ghost predicate IsFirstIn(image: Image, kind: Kind, start: U64, size: U64, v: U64)
    requires kind.DataBlock?
  {
    var memory := BytesAt(image, start, size);
    exists at: nat ::
      && DataBlock.Searched(memory, |kind.pattern.data|, at)
      && DataBlock.MatchesAt(memory, kind.pattern.data, kind.pattern.mask, at)
      && (forall other: nat :: other < at && DataBlock.Searched(memory, |kind.pattern.data|, other) ==>
            !DataBlock.MatchesAt(memory, kind.pattern.data, kind.pattern.mask, other))
      && v == (start + at + kind.offs) % TWO64
  }

  /** `v` comes from the address `a` of the symbol's source. */
  ghost predicate ComesFrom(image: Image, kind: Kind, a: U64, v: U64)
    requires SourceName(kind).Some?
  {
    match kind
    case ReadAdrp(_, lo) =>
      InstrUtil.ReadAdrpGlobal(a, WordAt(image, a, 4), WordAt(image, Wrap64(a + 4 * lo), 4), Load(image))
        == InstrUtil.Address(v)
    case Arithmetic(_, addend) => v == Wrap64(a + addend)
  }

  /** `v` is what one of the symbols of the name says, all the way down to the image. */
  ghost predicate Describes(
    h: Hashes, rank: U32 -> nat, image: Image, modules: seq<Option<Module>>, syms: seq<Symbol>, name: string, v: U64)
    requires Layered(h, rank, syms)
    decreases rank(h.murmur(name)), 1
  {
    exists s :: s in syms && s.name == name && SymbolDescribes(h, rank, image, modules, syms, s, v)
  }

  ghost predicate SymbolDescribes(
    h: Hashes, rank: U32 -> nat, image: Image, modules: seq<Option<Module>>, syms: seq<Symbol>, s: Symbol, v: U64)
    requires Layered(h, rank, syms) && s in syms
    decreases rank(h.murmur(s.name)), 0
  {
    match s.kind
    case Immediate(idx, offset) =>
      && idx < |modules| && modules[idx].Some? && Listed(s.versions, modules[idx].value.versionIndex)
      && v == Wrap64(modules[idx].value.text.start + offset)
    case Dynamic(target) => v != 0 && v == ElfLookup.Resolve(h, image.exporters, target)
    case DataBlock(_, idx, boundary, fromVersion, _, _) =>
      && idx < |modules| && modules[idx].Some?
      && SailMeaning.Searched(boundary, fromVersion, modules[idx].value.versionIndex)
      && IsBlock(image, s.kind, modules[idx].value, v)
    case _ =>
      exists a: U64 ::
        Describes(h, rank, image, modules, syms, SourceName(s.kind).value, a) && ComesFrom(image, s.kind, a, v)
  }

  /** Every exported target has a hash of its own. */
  ghost predicate TargetsApart(h: Hashes, image: Image, syms: seq<Symbol>)
  {
    forall s :: s in syms && s.kind.Dynamic? ==> TellsApart(h, image.exporters, s.kind.target)
  }

  lemma BlockIsDescribed(h: Hashes, image: Image, modules: seq<Option<Module>>, kind: Kind, v: U64)
    requires kind.DataBlock? && DenoteDataBlock(EnvOf(h, image, modules), kind) == Address(v)
    ensures kind.inModule < |modules| && modules[kind.inModule].Some?
    ensures SailMeaning.Searched(kind.boundary, kind.fromVersion, modules[kind.inModule].value.versionIndex)
    ensures IsBlock(image, kind, modules[kind.inModule].value, v)
  {
    var m := modules[kind.inModule].value;
    var range := SearchedRange(m, kind.section);
    var memory := BytesAt(image, range.start, range.size);
    var first := FirstMatch(memory, kind.pattern.data, kind.pattern.mask, 0);
    WrapTwice(range.start + first.value, kind.offs);
    assert IsFirstIn(image, kind, range.start, range.size, v);
    assert IsSection(m, kind.section, range.start, range.size);
  }

  lemma ReadIsDescribed(
      h: Hashes, image: Image, modules: seq<Option<Module>>, source: Meaning, lo: int, v: U64) returns (a: U64)
    requires DenoteRead(EnvOf(h, image, modules), source, lo) == Address(v)
    ensures source == Address(a)
    ensures forall at :: ComesFrom(image, ReadAdrp(at, lo), a, v)
  {
    a := source.value;
  }

  lemma FromSource(
    h: Hashes, rank: U32 -> nat, image: Image, modules: seq<Option<Module>>, syms: seq<Symbol>, s: Symbol, a: U64,
    v: U64)
    requires Layered(h, rank, syms) && s in syms && SourceName(s.kind).Some?
    requires Describes(h, rank, image, modules, syms, SourceName(s.kind).value, a) && ComesFrom(image, s.kind, a, v)
    ensures SymbolDescribes(h, rank, image, modules, syms, s, v)
  {
  }

  lemma {:induction false} SymbolIsDescribed(
    h: Hashes, rank: U32 -> nat, image: Image, modules: seq<Option<Module>>, syms: seq<Symbol>, s: Symbol, v: U64)
    requires Layered(h, rank, syms) && s in syms && TargetsApart(h, image, syms)
    requires DenoteSymbol(h, rank, EnvOf(h, image, modules), syms, s) == Address(v)
    ensures SymbolDescribes(h, rank, image, modules, syms, s, v)
    decreases rank(h.murmur(s.name)), 0, 0
  {
    match s.kind
    case Immediate(_, _) =>
    case Dynamic(target) => ExportedIsResolved(h, image.exporters, target);
    case DataBlock(_, _, _, _, _, _) => BlockIsDescribed(h, image, modules, s.kind, v);
    case ReadAdrp(at, lo) =>
      var a := ReadIsDescribed(h, image, modules, Denote(h, rank, EnvOf(h, image, modules), syms, at), lo, v);
      NameIsDescribed(h, rank, image, modules, syms, at, a);
      FromSource(h, rank, image, modules, syms, s, a, v);
    case Arithmetic(base, addend) =>
      var a := Denote(h, rank, EnvOf(h, image, modules), syms, base);
      NameIsDescribed(h, rank, image, modules, syms, base, a.value);
      FromSource(h, rank, image, modules, syms, s, a.value, v);
  }

  lemma {:induction false} FirstIsDescribed(
    h: Hashes, rank: U32 -> nat, image: Image, modules: seq<Option<Module>>, syms: seq<Symbol>, named: seq<Symbol>,
    name: string, onlyImmediates: bool, v: U64)
    requires Layered(h, rank, syms) && TargetsApart(h, image, syms)
    requires forall s :: s in named ==> s in syms && s.name == name
    requires DenoteFirst(h, rank, EnvOf(h, image, modules), syms, named, name, onlyImmediates) == Address(v)
    ensures Describes(h, rank, image, modules, syms, name, v)
    decreases rank(h.murmur(name)), 1, |named|
  {
    var head := DenoteSymbol(h, rank, EnvOf(h, image, modules), syms, named[0]);
    if (onlyImmediates ==> named[0].kind.Immediate?) && Settles(head) {
      SymbolIsDescribed(h, rank, image, modules, syms, named[0], v);
    } else {
      FirstIsDescribed(h, rank, image, modules, syms, named[1..], name, onlyImmediates, v);
    }
  }

  /** The address a name means is described by one of its symbols, and by those it is built on. */
  lemma {:induction false} NameIsDescribed(
    h: Hashes, rank: U32 -> nat, image: Image, modules: seq<Option<Module>>, syms: seq<Symbol>, name: string, v: U64)
    requires Layered(h, rank, syms) && TargetsApart(h, image, syms)
    requires Denote(h, rank, EnvOf(h, image, modules), syms, name) == Address(v)
    ensures Describes(h, rank, image, modules, syms, name, v)
    decreases rank(h.murmur(name)), 2, 0
  {
    NamedIsIn(syms, name);
    var named := Named(syms, name);
    if |named| == 1 {
      SymbolIsDescribed(h, rank, image, modules, syms, named[0], v);
    } else if DenoteFirst(h, rank, EnvOf(h, image, modules), syms, named, name, true) == Address(v) {
      FirstIsDescribed(h, rank, image, modules, syms, named, name, true, v);
    } else {
      FirstIsDescribed(h, rank, image, modules, syms, named, name, false, v);
    }
  }

  /** Every answer of a run over an image is an address the image has for that name: what
      `LookupAll` returns is in a module of a listed version, exported by the first module that
      defines the target, the first match of a pattern, or computed from such an address. */
  lemma AnswerIsDescribed(
      d: SailCache.Database, h: Hashes, image: Image, sorted: seq<Symbol>, name: string, out: U64)
    requires SailRun.Loaded(d, h, sorted) && d.env == EnvOf(h, image, d.env.modules) && TargetsApart(h, image, sorted)
    requires SailRun.Answers(d, h, sorted, name, true, out)
    requires Judged(h, d.rank, d.env, sorted, name, true)
    requires SailRun.Unspoiled(d, h.murmur(name)) && !SailRun.Hidden(d, h.murmur(name))
    ensures Describes(h, d.rank, image, d.env.modules, sorted, name, out)
  {
    NameIsDescribed(h, d.rank, image, d.env.modules, sorted, name, out);
  }

  /** A block parsed from a hex pattern agrees with every nibble the pattern gives. */
  lemma BlockAgrees(hex: string, kind: Kind, memory: seq<U8>, at: nat)
    requires kind.DataBlock? && DataBlock.WellFormed(hex)
    requires DataBlock.Encodes(hex, kind.pattern.data, kind.pattern.mask)
    requires at + |kind.pattern.data| <= |memory|
    ensures DataBlock.MatchesAt(memory, kind.pattern.data, kind.pattern.mask, at) <==> DataBlock.Agrees(hex, memory, at)
  {
    DataBlock.MatchesIsAgrees(hex, kind.pattern.data, kind.pattern.mask, memory, at);
  }
}
