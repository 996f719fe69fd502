/** Resolving a symbol of the database (hakkun/src/hk/sail/detail.cpp) without caches: what each
    record type writes to its output, and when it aborts. */
module SailResolve {
  import opened Words
  import opened Options
  import opened SailDb

  datatype Range = Range(start: U64, size: U64)

  /** A loaded module as the resolver sees it; the version index is -1 when none was found. */
  datatype Module = Module(versionIndex: int, text: Range, rodata: Range, data: Range) {
    function Whole(): Range { Range(text.start, Wrap64(text.size + rodata.size + data.size)) }
  }

  /** What stays fixed while symbols are looked up: the modules, their images and their exports. */
  datatype Env = Env(
    modules: seq<Option<Module>>,
    exported: (U64, U32, U32) -> U64,
    search: (Pattern, Range) -> U64,
    readAdrp: (U64, int) -> Option<U64>)

  /** What applying a record does to `*out`. `Garbage` is a value computed from an output that
      was never written. */
  datatype Outcome = Wrote(value: U64) | Kept | Aborted | Garbage

  function ModuleAt(env: Env, idx: nat): Option<Module>
  {
    if idx < |env.modules| then env.modules[idx] else None
  }

  /** `SymbolVersioned::isVersion`: a 64-bit shift takes its distance modulo 64. */
  predicate IsVersion(bitset: U64, versionIndex: int) { TestBit(bitset, versionIndex % 64) }

  function AbortOr(abort: bool, other: Outcome): Outcome { if abort then Aborted else other }

  function EvalImmediate(env: Env, bitset: U64, moduleIdx: nat, offset: U32, abort: bool): Outcome
  {
    match ModuleAt(env, moduleIdx)
    case None => Aborted
    case Some(m) =>
      if IsVersion(bitset, m.versionIndex) then Wrote(Wrap64(m.text.start + offset)) else AbortOr(abort, Kept)
  }

  function EvalDynamic(env: Env, elf: U64, murmur: U32, djb2: U32, abort: bool): Outcome
  {
    var address := env.exported(elf, djb2, murmur);
    if address == 0 then AbortOr(abort, Wrote(0)) else Wrote(address)
  }

  /** The version test: the case for `Older` falls through into the one for `From`. */
  predicate OutsideBoundary(boundary: nat, fromVersion: nat, loaded: int)
  {
    || (boundary == 1 && loaded >= fromVersion)
    || ((boundary == 1 || boundary == 2) && loaded < fromVersion)
  }

  function Section(m: Module, section: nat): Range
  {
    if section == 1 then m.text else if section == 2 then m.rodata else if section == 3 then m.data else m.Whole()
  }

  /** A block that is not found leaves its offset behind, unless failing is fatal. */
  function EvalDataBlock(env: Env, body: Body, abort: bool): Outcome
    requires body.DataBlockBody?
  {
    match ModuleAt(env, body.inModule)
    case None => Aborted
    case Some(m) =>
      if OutsideBoundary(body.boundary, body.fromVersion, m.versionIndex) then Kept
      else
        var address := env.search(body.pattern, Section(m, body.section));
        if address == 0 then AbortOr(abort, Wrote(Wrap64(body.offs))) else Wrote(Wrap64(address + body.offs))
  }

  function ReadFrom(env: Env, source: Outcome, lo: int, abort: bool): Outcome
  {
    match source
    case Wrote(at) => (match env.readAdrp(at, lo) case Some(v) => Wrote(v) case None => AbortOr(abort, Kept))
    case Kept => Garbage
    case _ => source
  }

  function AddTo(source: Outcome, addend: int): Outcome
  {
    match source
    case Wrote(at) => Wrote(Wrap64(at + addend))
    case Kept => Garbage
    case _ => source
  }

  // ----- references between records -----

  /** Sources have a smaller rank than the symbols built on them, and candidates share the hash
      of their list: the references are acyclic. */
  ghost predicate SourceBelow(rank: U32 -> nat, e: Entry)
  {
    match e.body
    case AdrpBody(source, _) => rank(source) < rank(e.hash)
    case ArithmeticBody(source, _) => rank(source) < rank(e.hash)
    case MultipleBody(candidates) =>
      forall c :: c in candidates ==> c.hash == e.hash && !c.body.MultipleBody? && SourceBelow(rank, c)
    case _ => true
  }

  ghost predicate Acyclic(table: seq<Entry>, rank: U32 -> nat) { forall e :: e in table ==> SourceBelow(rank, e) }

  ghost function Eval(table: seq<Entry>, rank: U32 -> nat, env: Env, e: Entry, abort: bool): Outcome
    requires Acyclic(table, rank) && SourceBelow(rank, e)
    decreases rank(e.hash), if e.body.MultipleBody? then 2 else 0, 0
  {
    match e.body
    case ImmediateBody(bitset, moduleIdx, offset) => EvalImmediate(env, bitset, moduleIdx, offset, abort)
    case DynamicBody(elf, murmur, djb2) => EvalDynamic(env, elf, murmur, djb2, abort)
    case DataBlockBody(_, _, _, _, _, _) => EvalDataBlock(env, e.body, abort)
    case AdrpBody(source, lo) =>
      (match Find(table, source)
       case None => Aborted
       case Some(src) => ReadFrom(env, Eval(table, rank, env, src, abort), lo, abort))
    case ArithmeticBody(source, addend) =>
      (match Find(table, source)
       case None => Aborted
       case Some(src) => AddTo(Eval(table, rank, env, src, abort), addend))
    case MultipleBody(candidates) =>
      var first := EvalCandidates(table, rank, env, candidates, e.hash, true);
      if first != Kept then first
      else
        var any := EvalCandidates(table, rank, env, candidates, e.hash, false);
        if any != Kept then any else Aborted
  }

  /** One loop over the candidates: the first nonzero result; `Kept` when there is none. */
  ghost function EvalCandidates(
    table: seq<Entry>, rank: U32 -> nat, env: Env, candidates: seq<Entry>, hash: U32, onlyImmediates: bool): Outcome
    requires Acyclic(table, rank)
    requires forall c :: c in candidates ==> c.hash == hash && !c.body.MultipleBody? && SourceBelow(rank, c)
    decreases rank(hash), 1, |candidates|
  {
    if candidates == [] then Kept
    else if onlyImmediates && !candidates[0].body.ImmediateBody? then
      EvalCandidates(table, rank, env, candidates[1..], hash, onlyImmediates)
    else
      match Eval(table, rank, env, candidates[0], false)
      case Wrote(v) =>
        if v != 0 then Wrote(v) else EvalCandidates(table, rank, env, candidates[1..], hash, onlyImmediates)
      case Kept => EvalCandidates(table, rank, env, candidates[1..], hash, onlyImmediates)
      case Aborted => Aborted
      case Garbage => Garbage
  }

  /** Making failures fatal only turns outcomes into aborts. */
  lemma {:induction false} AbortOnlyAborts(table: seq<Entry>, rank: U32 -> nat, env: Env, e: Entry)
    requires Acyclic(table, rank) && SourceBelow(rank, e)
    ensures Eval(table, rank, env, e, true).Aborted?
         || Eval(table, rank, env, e, true) == Eval(table, rank, env, e, false)
    decreases rank(e.hash)
  {
    match e.body
    case AdrpBody(source, _) =>
      var src := Find(table, source);
      if src.Some? {
        AbortOnlyAborts(table, rank, env, src.value);
      }
    case ArithmeticBody(source, _) =>
      var src := Find(table, source);
      if src.Some? {
        AbortOnlyAborts(table, rank, env, src.value);
      }
    case _ =>
  }
}
