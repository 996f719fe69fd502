/** What source symbols mean, stated on names, version lists, version boundaries and candidate order
    alone, and when compiling them to a database and resolving by hash gives exactly that. */
module SailMeaning {
  import opened Hashing
  import opened Words
  import opened Options
  import opened SailDb
  import opened SailResolve

  /** The symbols of one name, in table order. */
  function Named(syms: seq<Symbol>, name: string): seq<Symbol>
  {
    if syms == [] then []
    else
      var last := syms[|syms| - 1];
      Named(syms[..|syms| - 1], name) + if last.name == name then [last] else []
  }

  /** Every symbol is built on names of smaller rank. */
  ghost predicate Layered(h: Hashes, rank: U32 -> nat, syms: seq<Symbol>)
  {
    forall s :: s in syms && SourceName(s.kind).Some? ==>
      rank(h.murmur(SourceName(s.kind).value)) < rank(h.murmur(s.name))
  }

  // ----- what symbols mean -----

  /** `Fatal` is a mistake that no lookup survives: a module that is not there, or a name nobody
      defines. A symbol that is unresolved may leave the choice to an alternative. */
  datatype Meaning = Address(value: U64) | Unresolved | Fatal

  /** A symbol for one version list of one module. */
  function DenoteImmediate(env: Env, versions: seq<nat>, moduleIdx: nat, offset: U32): Meaning
  {
    match ModuleAt(env, moduleIdx)
    case None => Fatal
    case Some(m) =>
      if m.versionIndex >= 0 && m.versionIndex in versions then Address(Wrap64(m.text.start + offset)) else Unresolved
  }

  /** A symbol that some loaded module exports. */
  function DenoteDynamic(env: Env, elf: U64, djb2: U32, murmur: U32): Meaning
  {
    var address := env.exported(elf, djb2, murmur);
    if address == 0 then Unresolved else Address(address)
  }

  /** Where a block is meant to be searched for: `Older` means older than the version, `From` the
      version or newer, and every other boundary any version at all. */
  predicate Searched(boundary: nat, fromVersion: nat, loaded: int)
  {
    (boundary == 1 ==> loaded < fromVersion) && (boundary == 2 ==> loaded >= fromVersion)
  }

  /** The memory a block is searched for in: the text, the read-only data, the data, or all three. */
  function SearchedRange(m: Module, section: nat): Range
  {
    match section
    case 1 => m.text
    case 2 => m.rodata
    case 3 => m.data
    case _ => Range(m.text.start, (m.text.size + m.rodata.size + m.data.size) % TWO64)
  }

  predicate Found(env: Env, kind: Kind, m: Module)
    requires kind.DataBlock?
  {
    env.search(kind.pattern, SearchedRange(m, kind.section)) != 0
  }

  /** A block of code or data, and a place relative to it. */
  function DenoteDataBlock(env: Env, kind: Kind): Meaning
    requires kind.DataBlock?
  {
    match ModuleAt(env, kind.inModule)
    case None => Fatal
    case Some(m) =>
      if Searched(kind.boundary, kind.fromVersion, m.versionIndex) && Found(env, kind, m) then
        Address((env.search(kind.pattern, SearchedRange(m, kind.section)) + kind.offs) % TWO64)
      else Unresolved
  }

  /** What an ADRP pair at the address of a symbol refers to. */
  function DenoteRead(env: Env, source: Meaning, lo: int): Meaning
  {
    match source
    case Address(at) => (match env.readAdrp(at, lo) case Some(v) => Address(v) case None => Unresolved)
    case _ => source
  }

  /** A place relative to another symbol. */
  function DenoteSum(source: Meaning, addend: int): Meaning
  {
    match source
    case Address(at) => Address(Wrap64(at + addend))
    case _ => source
  }

  ghost function DenoteSymbol(h: Hashes, rank: U32 -> nat, env: Env, syms: seq<Symbol>, sym: Symbol): Meaning
    requires Layered(h, rank, syms) && sym in syms
    decreases rank(h.murmur(sym.name)), 0, 0
  {
    match sym.kind
    case Immediate(moduleIdx, offset) => DenoteImmediate(env, sym.versions, moduleIdx, offset)
    case Dynamic(target) => DenoteDynamic(env, h.elf(target), h.djb2(target), h.murmur(target))
    case DataBlock(_, _, _, _, _, _) => DenoteDataBlock(env, sym.kind)
    case ReadAdrp(at, lo) => DenoteRead(env, Denote(h, rank, env, syms, at), lo)
    case Arithmetic(base, addend) => DenoteSum(Denote(h, rank, env, syms, base), addend)
  }

  /** What a name means: its only symbol, or among several the first immediate one that resolves,
      or else the first of any kind that does. */
  ghost function Denote(h: Hashes, rank: U32 -> nat, env: Env, syms: seq<Symbol>, name: string): Meaning
    requires Layered(h, rank, syms)
    decreases rank(h.murmur(name)), 2, 0
  {
    NamedIsIn(syms, name);
    var named := Named(syms, name);
    if |named| == 0 then Fatal
    else if |named| == 1 then DenoteSymbol(h, rank, env, syms, named[0])
    else
      var first := DenoteFirst(h, rank, env, syms, named, name, true);
      if first != Unresolved then first else DenoteFirst(h, rank, env, syms, named, name, false)
  }

  /** An alternative that ends the search for one. Address 0 does not. */
  predicate Settles(meant: Meaning) { meant != Unresolved && meant != Address(0) }

  ghost function DenoteFirst(
    h: Hashes, rank: U32 -> nat, env: Env, syms: seq<Symbol>, named: seq<Symbol>, name: string,
    onlyImmediates: bool): Meaning
    requires Layered(h, rank, syms) && forall s :: s in named ==> s in syms && s.name == name
    decreases rank(h.murmur(name)), 1, |named|
  {
    if named == [] then Unresolved
    else
      var head := DenoteSymbol(h, rank, env, syms, named[0]);
      if (onlyImmediates ==> named[0].kind.Immediate?) && Settles(head) then head
      else DenoteFirst(h, rank, env, syms, named[1..], name, onlyImmediates)
  }

  lemma {:induction false} NamedIsIn(syms: seq<Symbol>, name: string)
    ensures forall s :: s in Named(syms, name) <==> s in syms && s.name == name
  {
    if syms != [] {
      var front, last := syms[..|syms| - 1], syms[|syms| - 1];
      NamedIsIn(front, name);
      assert syms == front + [last];
    }
  }

  // ----- where the resolver does what is meant -----

  /** The resolver's outcome is what is meant, `must` telling whether the symbol has to resolve. */
  predicate Agrees(code: Outcome, meant: Meaning, must: bool)
  {
    match meant
    case Address(v) => code == Wrote(v)
    case Unresolved => if must then code == Aborted else code == Kept || code == Wrote(0)
    case Fatal => code == Aborted
  }

  /** The blocks the version test passes over: the case for `Older` falls through into `From`. */
  predicate Skipped(boundary: nat, fromVersion: nat, loaded: int)
  {
    boundary == 1 || (boundary == 2 && loaded < fromVersion)
  }

  /** The test decides as meant if and only if the boundary is not `Older` or the loaded version is
      not older. */
  lemma BoundaryDecides(boundary: nat, fromVersion: nat, loaded: int)
    ensures OutsideBoundary(boundary, fromVersion, loaded) <==> Skipped(boundary, fromVersion, loaded)
    ensures (Skipped(boundary, fromVersion, loaded) <==> !Searched(boundary, fromVersion, loaded))
       <==> boundary != 1 || loaded >= fromVersion
  {
  }

  /** A block with the `Older` boundary never resolves, whatever version is loaded. */
  lemma OlderNeverResolves(env: Env, body: Body, abort: bool)
    requires body.DataBlockBody? && body.boundary == 1
    ensures EvalDataBlock(env, body, abort) == if ModuleAt(env, body.inModule).Some? then Kept else Aborted
  {
  }

  /** A block that must resolve must not be passed over: the resolver then does not abort. A block
      that need not must not be passed over where it is meant to be found, and when it is searched
      for and not found its offset, which is then left as the result, must be 0. */
  predicate BlockHolds(env: Env, kind: Kind, must: bool)
    requires kind.DataBlock?
  {
    match ModuleAt(env, kind.inModule)
    case None => true
    case Some(m) =>
      if Skipped(kind.boundary, kind.fromVersion, m.versionIndex) then
        !must && !(Searched(kind.boundary, kind.fromVersion, m.versionIndex) && Found(env, kind, m))
      else must || Found(env, kind, m) || kind.offs % TWO64 == 0
  }

  predicate Listed(versions: seq<nat>, loaded: int) { loaded >= 0 && loaded in versions }

  /** The bitset, asked for the loaded version, answers as the list does. */
  predicate VersionHolds(env: Env, versions: seq<nat>, moduleIdx: nat)
  {
    match ModuleAt(env, moduleIdx)
    case None => true
    case Some(m) => Covered(versions, m.versionIndex % 64) <==> Listed(versions, m.versionIndex)
  }

  /** Everything that resolving the name tries agrees with what it means. */
  ghost predicate Judged(h: Hashes, rank: U32 -> nat, env: Env, syms: seq<Symbol>, name: string, must: bool)
    requires Layered(h, rank, syms)
    decreases rank(h.murmur(name)), 2, 0
  {
    NamedIsIn(syms, name);
    var named := Named(syms, name);
    if |named| == 0 then true
    else if |named| == 1 then JudgedSymbol(h, rank, env, syms, named[0], must)
    else
      && JudgedFirst(h, rank, env, syms, named, name, true)
      && (DenoteFirst(h, rank, env, syms, named, name, true) == Unresolved ==>
            JudgedFirst(h, rank, env, syms, named, name, false))
      && (must || Denote(h, rank, env, syms, name) != Unresolved)
  }

  /** The alternatives up to the first that resolves. */
  ghost predicate JudgedFirst(
    h: Hashes, rank: U32 -> nat, env: Env, syms: seq<Symbol>, named: seq<Symbol>, name: string,
    onlyImmediates: bool)
    requires Layered(h, rank, syms) && forall s :: s in named ==> s in syms && s.name == name
    decreases rank(h.murmur(name)), 1, |named|
  {
    named == [] ||
    if onlyImmediates && !named[0].kind.Immediate? then
      JudgedFirst(h, rank, env, syms, named[1..], name, onlyImmediates)
    else
      && JudgedSymbol(h, rank, env, syms, named[0], false)
      && (Settles(DenoteSymbol(h, rank, env, syms, named[0]))
          || JudgedFirst(h, rank, env, syms, named[1..], name, onlyImmediates))
  }

  /** What is built on another symbol must not be built on one that is unresolved, unless that
      ends the lookup. */
  ghost predicate JudgedSymbol(
      h: Hashes, rank: U32 -> nat, env: Env, syms: seq<Symbol>, sym: Symbol, must: bool)
    requires Layered(h, rank, syms) && sym in syms
    decreases rank(h.murmur(sym.name)), 0, 0
  {
    match sym.kind
    case Immediate(moduleIdx, _) => VersionHolds(env, sym.versions, moduleIdx)
    case Dynamic(_) => true
    case DataBlock(_, _, _, _, _, _) => BlockHolds(env, sym.kind, must)
    case ReadAdrp(at, _) =>
      Judged(h, rank, env, syms, at, must) && (must || Denote(h, rank, env, syms, at) != Unresolved)
    case Arithmetic(base, _) =>
      Judged(h, rank, env, syms, base, must) && (must || Denote(h, rank, env, syms, base) != Unresolved)
  }

  /** The name, and every name it is built on, has at most one symbol. */
  ghost predicate Alone(h: Hashes, rank: U32 -> nat, syms: seq<Symbol>, name: string)
    requires Layered(h, rank, syms)
    decreases rank(h.murmur(name))
  {
    NamedIsIn(syms, name);
    var named := Named(syms, name);
    && |named| <= 1
    && (|named| == 1 && SourceName(named[0].kind).Some? ==> Alone(h, rank, syms, SourceName(named[0].kind).value))
  }

  // ----- what the compiler can represent -----

  /** The hash tells `name` from every name the symbols have or build on. */
  ghost predicate Unambiguous(h: Hashes, syms: seq<Symbol>, name: string)
  {
    forall s :: s in syms && h.murmur(s.name) == h.murmur(name) ==> s.name == name
  }

  ghost predicate NamesUnambiguous(h: Hashes, syms: seq<Symbol>)
  {
    forall s :: s in syms ==>
      && Unambiguous(h, syms, s.name)
      && (SourceName(s.kind).Some? ==> Unambiguous(h, syms, SourceName(s.kind).value))
  }

  predicate Representable(sym: Symbol)
  {
    match sym.kind
    case DataBlock(_, inModule, boundary, fromVersion, section, _) =>
      inModule < TWO8 && boundary < TWO8 && fromVersion < TWO8 && section < TWO8
    case _ => true
  }

  /** The record of a block agrees with the block exactly where `BlockHolds` says. */
  lemma DataBlockMeans(h: Hashes, env: Env, sym: Symbol, must: bool)
    requires sym.kind.DataBlock? && Representable(sym)
    ensures Agrees(EvalDataBlock(env, EncodeSymbol(h, sym).body, must), DenoteDataBlock(env, sym.kind), must)
       <==> BlockHolds(env, sym.kind, must)
  {
    var m := ModuleAt(env, sym.kind.inModule);
    if m.Some? {
      BoundaryDecides(sym.kind.boundary, sym.kind.fromVersion, m.value.versionIndex);
    }
  }

  /** An immediate symbol that must resolve agrees with its version list if and only if the bitset
      does. One that need not has a second chance: an address 0 that is not meant is no result. */
  lemma ImmediateMeans(env: Env, versions: seq<nat>, moduleIdx: nat, offset: U32, must: bool)
    ensures Bitset(versions) < TWO64
    ensures Agrees(EvalImmediate(env, Bitset(versions), moduleIdx, offset, must),
                   DenoteImmediate(env, versions, moduleIdx, offset), must)
       <==> VersionHolds(env, versions, moduleIdx)
            || (!must && var m := ModuleAt(env, moduleIdx).value;
                !Listed(versions, m.versionIndex) && Wrap64(m.text.start + offset) == 0)
  {
    BitsetIsWord(versions);
    var m := ModuleAt(env, moduleIdx);
    if m.Some? {
      BitsetCovers(versions, m.value.versionIndex % 64);
    }
  }

  // ----- compile, then resolve -----

  lemma {:induction false} GroupIsNamed(h: Hashes, syms: seq<Symbol>, name: string)
    requires Unambiguous(h, syms, name)
    ensures Group(h, syms, h.murmur(name)) == Named(syms, name)
  {
    if syms != [] {
      GroupIsNamed(h, syms[..|syms| - 1], name);
      assert syms[|syms| - 1] in syms;
    }
  }

  lemma EncodedBelow(h: Hashes, rank: U32 -> nat, syms: seq<Symbol>, sym: Symbol)
    requires Layered(h, rank, syms) && sym in syms
    ensures SourceBelow(rank, EncodeSymbol(h, sym)) && !EncodeSymbol(h, sym).body.MultipleBody?
  {
  }

  lemma GroupBelow(h: Hashes, rank: U32 -> nat, syms: seq<Symbol>, hash: U32)
    requires Layered(h, rank, syms) && HasHash(h, syms, hash)
    ensures SourceBelow(rank, GroupEntry(h, Group(h, syms, hash), hash))
  {
    GroupHasHash(h, syms, hash);
    GroupIsIn(h, syms, hash);
    var group := Group(h, syms, hash);
    forall k | 0 <= k < |group|
      ensures SourceBelow(rank, EncodeSymbol(h, group[k])) && EncodeSymbol(h, group[k]).hash == hash
    {
      EncodedBelow(h, rank, syms, group[k]);
    }
  }

  lemma {:induction false} GroupIsIn(h: Hashes, syms: seq<Symbol>, hash: U32)
    ensures forall s :: s in Group(h, syms, hash) ==> s in syms
  {
    if syms != [] {
      GroupIsIn(h, syms[..|syms| - 1], hash);
    }
  }

  /** References that are acyclic in the source are acyclic in the table. */
  lemma TableAcyclic(h: Hashes, rank: U32 -> nat, syms: seq<Symbol>)
    requires Layered(h, rank, syms)
    ensures Acyclic(TableUpTo(h, syms, |syms|), rank)
  {
    forall e | e in TableUpTo(h, syms, |syms|)
      ensures SourceBelow(rank, e)
    {
      TableIsGroups(h, syms, |syms|, e);
      GroupBelow(h, rank, syms, e.hash);
    }
  }

  ghost function EvalHash(table: seq<Entry>, rank: U32 -> nat, env: Env, hash: U32, abort: bool): Outcome
    requires Acyclic(table, rank)
  {
    match Find(table, hash)
    case None => Aborted
    case Some(e) => Eval(table, rank, env, e, abort)
  }

  ghost predicate Compiled(h: Hashes, rank: U32 -> nat, env: Env, syms: seq<Symbol>, table: seq<Entry>)
  {
    && SortedByHash(h, syms) && table == TableUpTo(h, syms, |syms|) && Acyclic(table, rank)
    && Layered(h, rank, syms) && NamesUnambiguous(h, syms) && forall s :: s in syms ==> Representable(s)
  }

  /** Bitsets represent every list of indices up to 30, for every version the loader can find. */
  lemma LowVersionsHold(env: Env, versions: seq<nat>, moduleIdx: nat)
    requires forall v :: v in versions ==> v <= 30
    requires ModuleAt(env, moduleIdx).Some? ==> -1 <= ModuleAt(env, moduleIdx).value.versionIndex < 64
    ensures VersionHolds(env, versions, moduleIdx)
  {
    var m := ModuleAt(env, moduleIdx);
    if m.Some? && Listed(versions, m.value.versionIndex) {
      assert Covers(m.value.versionIndex, m.value.versionIndex % 64);
    }
  }

  lemma {:induction false} SymbolMeans(
    h: Hashes, rank: U32 -> nat, env: Env, syms: seq<Symbol>, table: seq<Entry>, sym: Symbol, must: bool)
    requires Compiled(h, rank, env, syms, table) && sym in syms
    requires SourceBelow(rank, EncodeSymbol(h, sym)) && JudgedSymbol(h, rank, env, syms, sym, must)
    ensures Agrees(Eval(table, rank, env, EncodeSymbol(h, sym), must), DenoteSymbol(h, rank, env, syms, sym), must)
    decreases rank(h.murmur(sym.name)), 0, 0
  {
    match sym.kind
    case Immediate(moduleIdx, offset) => ImmediateMeans(env, sym.versions, moduleIdx, offset, must);
    case ReadAdrp(at, _) => NameMeans(h, rank, env, syms, table, at, must);
    case Arithmetic(base, _) => NameMeans(h, rank, env, syms, table, base, must);
    case DataBlock(_, _, _, _, _, _) => DataBlockMeans(h, env, sym, must);
    case _ =>
  }

  lemma {:induction false} NameMeans(
    h: Hashes, rank: U32 -> nat, env: Env, syms: seq<Symbol>, table: seq<Entry>, name: string, must: bool)
    requires Compiled(h, rank, env, syms, table) && Unambiguous(h, syms, name)
    requires Judged(h, rank, env, syms, name, must)
    ensures Agrees(EvalHash(table, rank, env, h.murmur(name), must), Denote(h, rank, env, syms, name), must)
    decreases rank(h.murmur(name)), 2, 0
  {
    var hash := h.murmur(name);
    var group := Group(h, syms, hash);
    LookupGivesGroup(h, syms, hash);
    GroupIsNamed(h, syms, name);
    GroupHasHash(h, syms, hash);
    NamedIsIn(syms, name);
    if |group| == 1 {
      EncodedBelow(h, rank, syms, group[0]);
      SymbolMeans(h, rank, env, syms, table, group[0], must);
    } else if |group| > 1 {
      GroupBelow(h, rank, syms, hash);
      CandidatesMean(h, rank, env, syms, table, group, name, true);
      if DenoteFirst(h, rank, env, syms, group, name, true) == Unresolved {
        CandidatesMean(h, rank, env, syms, table, group, name, false);
      }
    }
  }

  lemma EncodedCandidates(h: Hashes, rank: U32 -> nat, syms: seq<Symbol>, named: seq<Symbol>, name: string)
    requires Layered(h, rank, syms) && forall s :: s in named ==> s in syms && s.name == name
    ensures forall c :: c in EncodeAll(h, named) ==>
        c.hash == h.murmur(name) && !c.body.MultipleBody? && SourceBelow(rank, c)
  {
    forall c | c in EncodeAll(h, named)
      ensures c.hash == h.murmur(name) && !c.body.MultipleBody? && SourceBelow(rank, c)
    {
      var k :| 0 <= k < |named| && EncodeAll(h, named)[k] == c;
      EncodedBelow(h, rank, syms, named[k]);
    }
  }

  /** What a loop over alternatives ends with. */
  function LoopOutcome(meant: Meaning): Outcome
  {
    match meant
    case Address(v) => Wrote(v)
    case Unresolved => Kept
    case Fatal => Aborted
  }

  lemma {:induction false} CandidatesMean(
    h: Hashes, rank: U32 -> nat, env: Env, syms: seq<Symbol>, table: seq<Entry>, named: seq<Symbol>, name: string,
    onlyImmediates: bool)
    requires Compiled(h, rank, env, syms, table) && forall s :: s in named ==> s in syms && s.name == name
    requires JudgedFirst(h, rank, env, syms, named, name, onlyImmediates)
    ensures forall c :: c in EncodeAll(h, named) ==>
        c.hash == h.murmur(name) && !c.body.MultipleBody? && SourceBelow(rank, c)
    ensures EvalCandidates(table, rank, env, EncodeAll(h, named), h.murmur(name), onlyImmediates)
         == LoopOutcome(DenoteFirst(h, rank, env, syms, named, name, onlyImmediates))
    decreases rank(h.murmur(name)), 1, |named|
  {
    EncodedCandidates(h, rank, syms, named, name);
    if named != [] {
      var tried := onlyImmediates ==> named[0].kind.Immediate?;
      assert EncodeAll(h, named)[1..] == EncodeAll(h, named[1..]);
      if tried {
        SymbolMeans(h, rank, env, syms, table, named[0], false);
      }
      if !tried || !Settles(DenoteSymbol(h, rank, env, syms, named[0])) {
        CandidatesMean(h, rank, env, syms, table, named[1..], name, onlyImmediates);
      }
    }
  }

  // ----- where it does not -----

  /** A name with one symbol is that symbol. */
  lemma OneSymbol(
      h: Hashes, rank: U32 -> nat, env: Env, syms: seq<Symbol>, table: seq<Entry>, name: string, sym: Symbol)
    requires Compiled(h, rank, env, syms, table) && Unambiguous(h, syms, name) && Named(syms, name) == [sym]
    ensures sym in syms && sym.name == name && SourceBelow(rank, EncodeSymbol(h, sym))
    ensures Find(table, h.murmur(name)) == Some(EncodeSymbol(h, sym))
    ensures EvalHash(table, rank, env, h.murmur(name), true) == Eval(table, rank, env, EncodeSymbol(h, sym), true)
    ensures Denote(h, rank, env, syms, name) == DenoteSymbol(h, rank, env, syms, sym)
    ensures Judged(h, rank, env, syms, name, true) <==> JudgedSymbol(h, rank, env, syms, sym, true)
  {
    LookupGivesGroup(h, syms, h.murmur(name));
    GroupIsNamed(h, syms, name);
    GroupHasHash(h, syms, h.murmur(name));
    NamedIsIn(syms, name);
    assert sym in Named(syms, name);
    EncodedBelow(h, rank, syms, sym);
  }

  /** A value computed from an output never written, or that output itself. */
  predicate Unwritten(outcome: Outcome) { outcome.Kept? || outcome.Garbage? }

  /** What is computed from an unwritten output is no better. */
  lemma SourceMisses(
    h: Hashes, rank: U32 -> nat, env: Env, syms: seq<Symbol>, table: seq<Entry>, sym: Symbol, source: string)
    requires Compiled(h, rank, env, syms, table) && sym in syms && SourceBelow(rank, EncodeSymbol(h, sym))
    requires SourceName(sym.kind) == Some(source)
    requires Unwritten(EvalHash(table, rank, env, h.murmur(source), true))
    ensures Unwritten(Eval(table, rank, env, EncodeSymbol(h, sym), true))
  {
    var e := EncodeSymbol(h, sym);
    assert e.body.AdrpBody? || e.body.ArithmeticBody?;
    assert e.body.source == h.murmur(source) && Find(table, e.body.source).Some?;
  }

  lemma BlockMisses(h: Hashes, rank: U32 -> nat, env: Env, syms: seq<Symbol>, table: seq<Entry>, sym: Symbol)
    requires Compiled(h, rank, env, syms, table) && sym in syms && SourceBelow(rank, EncodeSymbol(h, sym))
    requires sym.kind.DataBlock? && !BlockHolds(env, sym.kind, true)
    ensures Unwritten(Eval(table, rank, env, EncodeSymbol(h, sym), true))
  {
    var m := ModuleAt(env, sym.kind.inModule);
    BoundaryDecides(sym.kind.boundary, sym.kind.fromVersion, m.value.versionIndex);
  }

  ghost predicate VersionsHold(env: Env, syms: seq<Symbol>)
  {
    forall s :: s in syms && s.kind.Immediate? ==> VersionHolds(env, s.versions, s.kind.moduleIdx)
  }

  /** What makes a name on its own resolve to something it does not mean. */
  lemma MisjudgedSymbol(
      h: Hashes, rank: U32 -> nat, env: Env, syms: seq<Symbol>, table: seq<Entry>, name: string)
    returns (sym: Symbol)
    requires Compiled(h, rank, env, syms, table) && Unambiguous(h, syms, name) && VersionsHold(env, syms)
    requires Alone(h, rank, syms, name) && !Judged(h, rank, env, syms, name, true)
    ensures Named(syms, name) == [sym] && sym in syms && sym.name == name
    ensures SourceName(sym.kind).None? ==> sym.kind.DataBlock? && !BlockHolds(env, sym.kind, true)
    ensures SourceName(sym.kind).Some? ==>
              var source := SourceName(sym.kind).value;
              Unambiguous(h, syms, source) && Alone(h, rank, syms, source) && !Judged(h, rank, env, syms, source, true)
  {
    NamedIsIn(syms, name);
    sym := Named(syms, name)[0];
    assert sym in Named(syms, name);
    OneSymbol(h, rank, env, syms, table, name, sym);
  }

  /** A name on its own over a block that is passed over: the resolver leaves the output alone, or
      computes from an output never written, where an address or an abort is meant. */
  lemma {:induction false} AloneMisses(
    h: Hashes, rank: U32 -> nat, env: Env, syms: seq<Symbol>, table: seq<Entry>, name: string)
    requires Compiled(h, rank, env, syms, table) && Unambiguous(h, syms, name) && VersionsHold(env, syms)
    requires Alone(h, rank, syms, name) && !Judged(h, rank, env, syms, name, true)
    ensures Unwritten(EvalHash(table, rank, env, h.murmur(name), true))
    decreases rank(h.murmur(name))
  {
    var sym := MisjudgedSymbol(h, rank, env, syms, table, name);
    OneSymbol(h, rank, env, syms, table, name, sym);
    if SourceName(sym.kind).Some? {
      var source := SourceName(sym.kind).value;
      AloneMisses(h, rank, env, syms, table, source);
      SourceMisses(h, rank, env, syms, table, sym, source);
    } else {
      BlockMisses(h, rank, env, syms, table, sym);
    }
  }

  /** For every list of symbols the compiler accepts and can represent, in whatever order the sort
      leaves equal hashes, looking a name up in the compiled database does what the source symbols
      of that name mean if everything it tries is judged as meant; for a name without alternatives
      whose version lists the bitsets represent, a lookup that must resolve does so only then. */
  lemma CompileThenResolve(
    h: Hashes, rank: U32 -> nat, env: Env, sorted: seq<Symbol>, table: seq<Entry>, name: string, must: bool)
    requires SortedByHash(h, sorted) && Table(h, sorted) == Some(table)
    requires Layered(h, rank, sorted) && NamesUnambiguous(h, sorted) && Unambiguous(h, sorted, name)
    requires forall s :: s in sorted ==> Representable(s)
    ensures Acyclic(table, rank)
    ensures Judged(h, rank, env, sorted, name, must) ==>
              Agrees(EvalHash(table, rank, env, h.murmur(name), must), Denote(h, rank, env, sorted, name), must)
    ensures Alone(h, rank, sorted, name) && VersionsHold(env, sorted) ==>
              (Agrees(EvalHash(table, rank, env, h.murmur(name), true), Denote(h, rank, env, sorted, name), true)
               <==> Judged(h, rank, env, sorted, name, true))
  {
    TableAcyclic(h, rank, sorted);
    if Judged(h, rank, env, sorted, name, must) {
      NameMeans(h, rank, env, sorted, table, name, must);
    }
    if Judged(h, rank, env, sorted, name, true) {
      NameMeans(h, rank, env, sorted, table, name, true);
    } else if Alone(h, rank, sorted, name) && VersionsHold(env, sorted) {
      AloneMisses(h, rank, env, sorted, table, name);
    }
  }

  // ----- leftovers among alternatives -----

  /** The block is searched for and not found, and has an offset that is not 0. */
  predicate LeavesOffset(env: Env, kind: Kind)
  {
    && kind.DataBlock? && ModuleAt(env, kind.inModule).Some?
    && var m := ModuleAt(env, kind.inModule).value;
       !Skipped(kind.boundary, kind.fromVersion, m.versionIndex) && !Found(env, kind, m) && kind.offs % TWO64 != 0
  }

  lemma LeftoverOutcome(h: Hashes, env: Env, sym: Symbol)
    requires Representable(sym) && LeavesOffset(env, sym.kind)
    ensures EvalDataBlock(env, EncodeSymbol(h, sym).body, false) == Wrote(Wrap64(sym.kind.offs)) != Wrote(0)
    ensures DenoteDataBlock(env, sym.kind) == Unresolved
  {
    var m := ModuleAt(env, sym.kind.inModule).value;
    BoundaryDecides(sym.kind.boundary, sym.kind.fromVersion, m.versionIndex);
  }

  /** Alternatives that are judged as meant and unresolved. */
  ghost predicate GivesNothing(h: Hashes, rank: U32 -> nat, env: Env, syms: seq<Symbol>, sym: Symbol)
    requires Layered(h, rank, syms) && sym in syms
  {
    JudgedSymbol(h, rank, env, syms, sym, false) && DenoteSymbol(h, rank, env, syms, sym) == Unresolved
  }

  /** The first `k` alternatives give nothing, and then comes such a block. */
  ghost predicate LeftoverAt(h: Hashes, rank: U32 -> nat, env: Env, syms: seq<Symbol>, named: seq<Symbol>, k: nat)
    requires Layered(h, rank, syms) && forall s :: s in named ==> s in syms
  {
    && k < |named| && LeavesOffset(env, named[k].kind)
    && forall j :: 0 <= j < k ==> GivesNothing(h, rank, env, syms, named[j])
  }

  lemma LeftoverInTail(
    h: Hashes, rank: U32 -> nat, env: Env, syms: seq<Symbol>, named: seq<Symbol>, rest: seq<Symbol>, k: nat)
    requires Layered(h, rank, syms) && forall s :: s in named ==> s in syms
    requires k > 0 && LeftoverAt(h, rank, env, syms, named, k) && rest == named[1..]
    ensures LeftoverAt(h, rank, env, syms, rest, k - 1)
    ensures rest[k - 1] == named[k] && rest[k..] == named[k + 1..]
  {
  }

  /** Behind alternatives that give nothing, such a block ends the loop with its offset, whatever
      the alternatives behind it mean. */
  lemma {:induction false} LeftoverSettles(
    h: Hashes, rank: U32 -> nat, env: Env, syms: seq<Symbol>, table: seq<Entry>, named: seq<Symbol>, name: string,
    entries: seq<Entry>, k: nat)
    requires Compiled(h, rank, env, syms, table) && forall s :: s in named ==> s in syms && s.name == name
    requires entries == EncodeAll(h, named) && AreCandidates(rank, entries, h.murmur(name))
    requires LeftoverAt(h, rank, env, syms, named, k)
    ensures EvalCandidates(table, rank, env, entries, h.murmur(name), false) == Wrote(Wrap64(named[k].kind.offs))
    ensures DenoteFirst(h, rank, env, syms, named, name, false)
         == DenoteFirst(h, rank, env, syms, named[k + 1..], name, false)
    decreases k
  {
    if k == 0 {
      LeftoverHead(h, rank, env, syms, table, named, name, entries);
    } else {
      var rest := named[1..];
      LeftoverInTail(h, rank, env, syms, named, rest, k);
      HeadGivesNothing(h, rank, env, syms, table, named, name, entries);
      LeftoverSettles(h, rank, env, syms, table, rest, name, entries[1..], k - 1);
    }
  }

  ghost predicate AreCandidates(rank: U32 -> nat, entries: seq<Entry>, hash: U32)
  {
    forall c :: c in entries ==> c.hash == hash && !c.body.MultipleBody? && SourceBelow(rank, c)
  }

  lemma LeftoverHead(
    h: Hashes, rank: U32 -> nat, env: Env, syms: seq<Symbol>, table: seq<Entry>, named: seq<Symbol>, name: string,
    entries: seq<Entry>)
    requires Compiled(h, rank, env, syms, table) && forall s :: s in named ==> s in syms && s.name == name
    requires named != [] && LeavesOffset(env, named[0].kind)
    requires entries == EncodeAll(h, named) && AreCandidates(rank, entries, h.murmur(name))
    ensures EvalCandidates(table, rank, env, entries, h.murmur(name), false) == Wrote(Wrap64(named[0].kind.offs))
    ensures DenoteFirst(h, rank, env, syms, named, name, false)
         == DenoteFirst(h, rank, env, syms, named[1..], name, false)
  {
    LeftoverOutcome(h, env, named[0]);
    assert entries[0] == EncodeSymbol(h, named[0]);
  }

  lemma HeadGivesNothing(
    h: Hashes, rank: U32 -> nat, env: Env, syms: seq<Symbol>, table: seq<Entry>, named: seq<Symbol>, name: string,
    entries: seq<Entry>)
    requires Compiled(h, rank, env, syms, table) && forall s :: s in named ==> s in syms && s.name == name
    requires named != [] && GivesNothing(h, rank, env, syms, named[0])
    requires entries == EncodeAll(h, named) && AreCandidates(rank, entries, h.murmur(name))
    ensures entries[1..] == EncodeAll(h, named[1..]) && AreCandidates(rank, entries[1..], h.murmur(name))
    ensures EvalCandidates(table, rank, env, entries, h.murmur(name), false)
         == EvalCandidates(table, rank, env, entries[1..], h.murmur(name), false)
    ensures DenoteFirst(h, rank, env, syms, named, name, false)
         == DenoteFirst(h, rank, env, syms, named[1..], name, false)
  {
    assert entries[0] == EncodeSymbol(h, named[0]);
    SymbolMeans(h, rank, env, syms, table, named[0], false);
  }

  /** A name whose immediate alternatives give nothing and that has such a block among the others,
      behind alternatives that give nothing, resolves to the offset: what is meant, the first
      alternative that resolves, is right if and only if it happens to be that number. */
  lemma {:induction false} UnfoundBlockShadows(
    h: Hashes, rank: U32 -> nat, env: Env, syms: seq<Symbol>, table: seq<Entry>, name: string, k: nat, must: bool)
    requires Compiled(h, rank, env, syms, table) && Unambiguous(h, syms, name)
    requires forall s :: s in Named(syms, name) ==> s in syms && s.name == name
    requires |Named(syms, name)| > 1 && LeftoverAt(h, rank, env, syms, Named(syms, name), k)
    requires JudgedFirst(h, rank, env, syms, Named(syms, name), name, true)
    requires DenoteFirst(h, rank, env, syms, Named(syms, name), name, true) == Unresolved
    ensures EvalHash(table, rank, env, h.murmur(name), must) == Wrote(Wrap64(Named(syms, name)[k].kind.offs))
    ensures Denote(h, rank, env, syms, name) == DenoteFirst(h, rank, env, syms, Named(syms, name)[k + 1..], name, false)
    ensures Agrees(EvalHash(table, rank, env, h.murmur(name), must), Denote(h, rank, env, syms, name), must)
       <==> Denote(h, rank, env, syms, name) == Address(Wrap64(Named(syms, name)[k].kind.offs))
  {
    var group := Named(syms, name);
    ListOfNamed(h, rank, env, syms, table, name);
    CandidatesMean(h, rank, env, syms, table, group, name, true);
    LeftoverSettles(h, rank, env, syms, table, group, name, EncodeAll(h, group), k);
    OffsetIsNotZero(env, group[k].kind);
  }

  /** The record of a name with several symbols is their list. */
  lemma ListOfNamed(h: Hashes, rank: U32 -> nat, env: Env, syms: seq<Symbol>, table: seq<Entry>, name: string)
    requires Compiled(h, rank, env, syms, table) && Unambiguous(h, syms, name) && |Named(syms, name)| > 1
    ensures Find(table, h.murmur(name)).Some?
    ensures var e := Find(table, h.murmur(name)).value;
            && e.hash == h.murmur(name) && e.body == MultipleBody(EncodeAll(h, Named(syms, name)))
            && SourceBelow(rank, e) && AreCandidates(rank, EncodeAll(h, Named(syms, name)), h.murmur(name))
  {
    LookupGivesGroup(h, syms, h.murmur(name));
    GroupIsNamed(h, syms, name);
    GroupHasHash(h, syms, h.murmur(name));
    GroupBelow(h, rank, syms, h.murmur(name));
  }

  lemma OffsetIsNotZero(env: Env, kind: Kind)
    requires LeavesOffset(env, kind)
    ensures Wrap64(kind.offs) != 0
  {
  }

  /** A sum over an unresolved symbol that leaves 0 does the same with its addend. */
  lemma SumSettles(
    h: Hashes, rank: U32 -> nat, env: Env, syms: seq<Symbol>, table: seq<Entry>, sym: Symbol)
    requires Compiled(h, rank, env, syms, table) && sym in syms && SourceBelow(rank, EncodeSymbol(h, sym))
    requires sym.kind.Arithmetic? && sym.kind.addend % TWO64 != 0
    requires EvalHash(table, rank, env, h.murmur(sym.kind.base), false) == Wrote(0)
    requires Denote(h, rank, env, syms, sym.kind.base) == Unresolved
    ensures Eval(table, rank, env, EncodeSymbol(h, sym), false) == Wrote(Wrap64(sym.kind.addend)) != Wrote(0)
    ensures DenoteSymbol(h, rank, env, syms, sym) == Unresolved
  {
    SumRecord(table, rank, env, EncodeSymbol(h, sym), h.murmur(sym.kind.base), sym.kind.addend);
  }

  lemma SumRecord(table: seq<Entry>, rank: U32 -> nat, env: Env, e: Entry, source: U32, addend: int)
    requires Acyclic(table, rank) && SourceBelow(rank, e) && e.body == ArithmeticBody(source, addend)
    requires EvalHash(table, rank, env, source, false) == Wrote(0)
    ensures Eval(table, rank, env, e, false) == Wrote(Wrap64(addend))
  {
  }

  // ----- an input -----

  function ShadowedEnv(m: Module): Env
  {
    Env([Some(m)], (_, _, _) => 0x7100, (_, _) => 0, (_, _) => None)
  }

  /** A block that is not in the image, then a symbol the program exports. */
  function Shadowed(pattern: Pattern): seq<Symbol>
  {
    [Symbol("f", DataBlock(pattern, 0, 0, 0, 0, 8), true, []), Symbol("f", Dynamic("f"), true, [])]
  }

  /** The program exports "f" at 0x7100; the lookup gives 8. */
  lemma ShadowedExport(h: Hashes, rank: U32 -> nat, pattern: Pattern, m: Module, table: seq<Entry>, must: bool)
    requires Table(h, Shadowed(pattern)) == Some(table)
    ensures SortedByHash(h, Shadowed(pattern)) && Layered(h, rank, Shadowed(pattern)) && Acyclic(table, rank)
    ensures EvalHash(table, rank, ShadowedEnv(m), h.murmur("f"), must) == Wrote(8)
    ensures Denote(h, rank, ShadowedEnv(m), Shadowed(pattern), "f") == Address(0x7100)
  {
    var syms, env := Shadowed(pattern), ShadowedEnv(m);
    TableAcyclic(h, rank, syms);
    NamedIsShadowed(pattern);
    NoImmediateGivesNothing(h, rank, env, syms);
    BlockLeavesOffset(h, rank, pattern, m);
    UnfoundBlockShadows(h, rank, env, syms, table, "f", 0, must);
  }

  lemma BlockLeavesOffset(h: Hashes, rank: U32 -> nat, pattern: Pattern, m: Module)
    requires Layered(h, rank, Shadowed(pattern))
    ensures LeftoverAt(h, rank, ShadowedEnv(m), Shadowed(pattern), Shadowed(pattern), 0)
    ensures DenoteFirst(h, rank, ShadowedEnv(m), Shadowed(pattern), Shadowed(pattern)[1..], "f", false)
         == Address(0x7100)
  {
    var syms := Shadowed(pattern);
    assert syms[1..] == [syms[1]];
  }

  lemma NamedIsShadowed(pattern: Pattern)
    ensures Named(Shadowed(pattern), "f") == Shadowed(pattern)
  {
    var syms := Shadowed(pattern);
    assert syms[..1] == [syms[0]] && syms[..1][..0] == [];
    assert Named(syms[..1][..0], "f") == [] && Named(syms[..1], "f") == [syms[0]];
  }

  lemma NoImmediateGivesNothing(h: Hashes, rank: U32 -> nat, env: Env, syms: seq<Symbol>)
    requires Layered(h, rank, syms) && |syms| == 2 && forall s :: s in syms ==> s.name == "f" && !s.kind.Immediate?
    ensures JudgedFirst(h, rank, env, syms, syms, "f", true)
    ensures DenoteFirst(h, rank, env, syms, syms, "f", true) == Unresolved
  {
    assert syms[1..][1..] == [];
    assert JudgedFirst(h, rank, env, syms, syms[1..][1..], "f", true);
    assert DenoteFirst(h, rank, env, syms, syms[1..][1..], "f", true) == Unresolved;
  }
}
