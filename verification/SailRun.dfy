/** Whole runs: any sequence of lookups, through the caches, against the meaning of the source. */
module SailRun {
  import opened Hashing
  import opened Words
  import opened Options
  import opened SailDb
  import opened SailResolve
  import opened SailMeaning
  import SailCache

  /** What is fixed over a run: a database compiled from symbols the compiler can represent. */
  ghost predicate Loaded(d: SailCache.Database, h: Hashes, sorted: seq<Symbol>)
  {
    && d.WellFormed()
    && SortedByHash(h, sorted) && Table(h, sorted) == Some(d.table)
    && Layered(h, d.rank, sorted) && NamesUnambiguous(h, sorted)
    && forall s :: s in sorted ==> Representable(s)
  }

  /** No number that was never written can get into the cache of the name. */
  ghost predicate Unspoiled(d: SailCache.Database, hash: U32)
    requires d.WellFormed()
  {
    Find(d.table, hash).Some? ==> !d.Spoiled(Find(d.table, hash).value)
  }

  /** An abort of the name may be hidden by a value that an alternative left in a cache. */
  ghost predicate Hidden(d: SailCache.Database, hash: U32)
    requires d.WellFormed()
  {
    Find(d.table, hash).Some? && d.MayHide(Find(d.table, hash).value)
  }

  /** A name that is judged as meant answers with its address, and aborts when it has none, unless
      the abort is hidden. */
  ghost predicate Answers(d: SailCache.Database, h: Hashes, sorted: seq<Symbol>, name: string, ok: bool, out: U64)
    requires Loaded(d, h, sorted)
  {
    Judged(h, d.rank, d.env, sorted, name, true) && Unspoiled(d, h.murmur(name)) ==>
      match Denote(h, d.rank, d.env, sorted, name)
      case Address(v) => ok && out == v
      case _ => !ok || Hidden(d, h.murmur(name))
  }

  method LookupName(d: SailCache.Database, h: Hashes, ghost sorted: seq<Symbol>, name: string)
    returns (ok: bool, out: U64)
    requires d.Valid() && Loaded(d, h, sorted) && Unambiguous(h, sorted, name)
    modifies SailCache.AllEntries(d.symbols)
    ensures d.Valid() && Answers(d, h, sorted, name, ok, out)
  {
    CompileThenResolve(h, d.rank, d.env, sorted, d.table, name, true);
    ok, out := d.Lookup(h.murmur(name), true);
    LookupAnswers(d, h, sorted, name, ok, out);
  }

  lemma LookupAnswers(d: SailCache.Database, h: Hashes, sorted: seq<Symbol>, name: string, ok: bool, out: U64)
    requires Loaded(d, h, sorted)
    requires Judged(h, d.rank, d.env, sorted, name, true) ==>
               Agrees(EvalHash(d.table, d.rank, d.env, h.murmur(name), true),
                      Denote(h, d.rank, d.env, sorted, name), true)
    requires Find(d.table, h.murmur(name)).None? ==> !ok
    requires Find(d.table, h.murmur(name)).Some? && Unspoiled(d, h.murmur(name)) ==>
               d.Resolves(Find(d.table, h.murmur(name)).value, true, 0, ok, out)
    ensures Answers(d, h, sorted, name, ok, out)
  {
    var e := Find(d.table, h.murmur(name));
    if e.Some? {
      AbortOnlyAborts(d.table, d.rank, d.env, e.value);
    }
  }

  ghost predicate AllAnswer(
    d: SailCache.Database, h: Hashes, sorted: seq<Symbol>, names: seq<string>, results: seq<U64>)
    requires Loaded(d, h, sorted)
  {
    |results| <= |names| && forall k :: 0 <= k < |results| ==> Answers(d, h, sorted, names[k], true, results[k])
  }

  lemma OneMore(
    d: SailCache.Database, h: Hashes, sorted: seq<Symbol>, names: seq<string>, results: seq<U64>, out: U64)
    requires Loaded(d, h, sorted) && AllAnswer(d, h, sorted, names, results)
    requires |results| < |names| && Answers(d, h, sorted, names[|results|], true, out)
    ensures AllAnswer(d, h, sorted, names, results + [out])
  {
  }

  /** Looks `names` up in order until one aborts. However the caches were filled before and are
      filled on the way, every name answers as its source symbols mean. */
  method LookupAll(
      d: SailCache.Database, h: Hashes, ghost sorted: seq<Symbol>, names: seq<string>) returns (results: seq<U64>)
    requires d.Valid() && Loaded(d, h, sorted)
    requires forall n :: n in names ==> Unambiguous(h, sorted, n)
    modifies SailCache.AllEntries(d.symbols)
    ensures d.Valid() && AllAnswer(d, h, sorted, names, results)
    ensures |results| < |names| ==> Answers(d, h, sorted, names[|results|], false, 0)
  {
    results := [];
    while |results| < |names|
      invariant d.Valid() && AllAnswer(d, h, sorted, names, results)
    {
      var ok, out := LookupName(d, h, sorted, names[|results|]);
      if !ok {
        return;
      }
      OneMore(d, h, sorted, names, results, out);
      results := results + [out];
    }
  }

  /** Neither the name nor one it is built on may be tried where failing is not fatal. A name with
      alternatives needs no shelter: it fails for good or not at all. */
  ghost predicate Sheltered(h: Hashes, rank: U32 -> nat, syms: seq<Symbol>, optional: set<U32>, name: string)
    requires Layered(h, rank, syms)
    decreases rank(h.murmur(name))
  {
    NamedIsIn(syms, name);
    var named := Named(syms, name);
    |named| == 1 ==>
      && h.murmur(name) !in optional
      && (SourceName(named[0].kind).Some? ==> Sheltered(h, rank, syms, optional, SourceName(named[0].kind).value))
  }

  /** What a name gives that is judged as meant and must resolve. */
  lemma JudgedOutcome(
      d: SailCache.Database, h: Hashes, sorted: seq<Symbol>, name: string) returns (e: Option<Entry>, outcome: Outcome)
    requires Loaded(d, h, sorted) && Unambiguous(h, sorted, name) && Judged(h, d.rank, d.env, sorted, name, true)
    ensures e == Find(d.table, h.murmur(name)) && (outcome.Wrote? || outcome.Aborted?)
    ensures e.Some? ==> e.value in d.table && outcome == Eval(d.table, d.rank, d.env, e.value, true)
  {
    CompileThenResolve(h, d.rank, d.env, sorted, d.table, name, true);
    e := Find(d.table, h.murmur(name));
    outcome := EvalHash(d.table, d.rank, d.env, h.murmur(name), true);
  }

  lemma ListIsSafe(d: SailCache.Database, e: Entry)
    requires d.WellFormed() && SourceBelow(d.rank, e) && e.body.MultipleBody?
    requires Eval(d.table, d.rank, d.env, e, true).Wrote? || Eval(d.table, d.rank, d.env, e, true).Aborted?
    ensures !d.Spoiled(e) && !d.MayHide(e)
  {
  }

  lemma RecordIsSafe(d: SailCache.Database, e: Entry)
    requires d.WellFormed() && SourceBelow(d.rank, e) && !d.MayFail(e)
    requires Eval(d.table, d.rank, d.env, e, true).Wrote? || Eval(d.table, d.rank, d.env, e, true).Aborted?
    requires d.Source(e).Some? ==> !d.Spoiled(d.Source(e).value) && !d.MayHide(d.Source(e).value)
    ensures !d.Spoiled(e) && !d.MayHide(e)
  {
  }

  /** What makes a name on its own sheltered and judged as meant; `source` is what it is built on. */
  lemma ShelteredSymbol(d: SailCache.Database, h: Hashes, sorted: seq<Symbol>, name: string)
    returns (sym: Symbol, source: Option<string>)
    requires Loaded(d, h, sorted) && Unambiguous(h, sorted, name) && |Named(sorted, name)| == 1
    requires Judged(h, d.rank, d.env, sorted, name, true) && Sheltered(h, d.rank, sorted, d.optional, name)
    ensures Named(sorted, name) == [sym] && sym in sorted && sym.name == name
    ensures h.murmur(name) !in d.optional && source == SourceName(sym.kind)
    ensures source.Some? ==>
              && Unambiguous(h, sorted, source.value)
              && Judged(h, d.rank, d.env, sorted, source.value, true)
              && Sheltered(h, d.rank, sorted, d.optional, source.value)
  {
    sym := Named(sorted, name)[0];
    source := SourceName(sym.kind);
    assert Named(sorted, name) == [sym];
    NamedIsIn(sorted, name);
  }

  lemma SymbolSource(d: SailCache.Database, h: Hashes, sorted: seq<Symbol>, sym: Symbol, e: Entry)
    requires Loaded(d, h, sorted) && sym in sorted && e == EncodeSymbol(h, sym) && SourceBelow(d.rank, e)
    ensures SourceName(sym.kind).None? ==> d.Source(e).None?
    ensures SourceName(sym.kind).Some? ==>
              && d.Source(e) == Find(d.table, h.murmur(SourceName(sym.kind).value))
              && d.rank(h.murmur(SourceName(sym.kind).value)) < d.rank(h.murmur(sym.name))
  {
  }

  lemma ManyIsList(d: SailCache.Database, h: Hashes, sorted: seq<Symbol>, name: string)
    requires Loaded(d, h, sorted) && Unambiguous(h, sorted, name) && |Named(sorted, name)| != 1
    ensures Find(d.table, h.murmur(name)).Some? ==> Find(d.table, h.murmur(name)).value.body.MultipleBody?
  {
    LookupGivesGroup(h, sorted, h.murmur(name));
    GroupIsNamed(h, sorted, name);
    GroupHasHash(h, sorted, h.murmur(name));
  }

  /** A sheltered name that is judged as meant is neither spoiled nor hidden, whatever the rest of
      the table does: every lookup of a run answers exactly as meant. */
  lemma {:induction false} ShelteredIsSafe(d: SailCache.Database, h: Hashes, sorted: seq<Symbol>, name: string)
    requires Loaded(d, h, sorted) && Unambiguous(h, sorted, name)
    requires Judged(h, d.rank, d.env, sorted, name, true) && Sheltered(h, d.rank, sorted, d.optional, name)
    ensures Unspoiled(d, h.murmur(name)) && !Hidden(d, h.murmur(name))
    decreases d.rank(h.murmur(name))
  {
    var e, outcome := JudgedOutcome(d, h, sorted, name);
    if e.Some? {
      if |Named(sorted, name)| == 1 {
        var sym, source := ShelteredSymbol(d, h, sorted, name);
        OneSymbol(h, d.rank, d.env, sorted, d.table, name, sym);
        SymbolSource(d, h, sorted, sym, e.value);
        if source.Some? {
          ShelteredIsSafe(d, h, sorted, source.value);
        }
        RecordIsSafe(d, e.value);
      } else {
        ManyIsList(d, h, sorted, name);
        ListIsSafe(d, e.value);
      }
    }
  }
}
