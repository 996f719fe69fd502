/** The resolver as it runs (`SymbolEntry::apply` in hakkun/include/hk/sail/detail.h): every
    record keeps its result in a cache word, where 1 means that caching is off. */
module SailCache {
  import opened Words
  import opened Options
  import opened SailDb
  import opened SailResolve

  class SymbolEntry {
    const record: Entry
    const candidates: seq<SymbolEntry>
    var symbolPtrCache: U64

    constructor (record: Entry, candidates: seq<SymbolEntry>)
      ensures this.record == record && this.candidates == candidates && symbolPtrCache == record.cache
    {
      this.record, this.candidates, symbolPtrCache := record, candidates, record.cache;
    }
  }

  // ----- the loaded table -----

  ghost function AllEntries(symbols: seq<SymbolEntry>): set<SymbolEntry>
  {
    (set e | e in symbols) + (set e, c | e in symbols && c in e.candidates :: c)
  }

  /** One object for each record, and one for each candidate of a list. */
  ghost predicate Holds(e: SymbolEntry, record: Entry)
  {
    && e.record == record
    && if record.body.MultipleBody? then
         && |e.candidates| == |record.body.candidates|
         && forall k :: 0 <= k < |e.candidates| ==> e.candidates[k].record == record.body.candidates[k]
       else e.candidates == []
  }

  ghost predicate Loads(symbols: seq<SymbolEntry>, table: seq<Entry>)
  {
    && |symbols| == |table|
    && forall i :: 0 <= i < |table| ==> Holds(symbols[i], table[i])
  }

  /** The name a record builds on. */
  function SourceHash(body: Body): Option<U32>
  {
    match body
    case AdrpBody(source, _) => Some(source)
    case ArithmeticBody(source, _) => Some(source)
    case _ => None
  }

  /** Some symbol is built on `name`. */
  ghost predicate IsSource(table: seq<Entry>, name: U32)
  {
    exists e, m :: e in table && m in Members(e) && SourceHash(m.body) == Some(name)
  }

  /** `optional` has every name that may be tried where failing is not fatal: the names that
      alternatives are built on, and the names those are built on. */
  ghost predicate CoversOptional(table: seq<Entry>, optional: set<U32>)
  {
    forall e, m :: e in table && m in Members(e) && SourceHash(m.body).Some?
                   && (e.body.MultipleBody? || e.hash in optional) ==>
      SourceHash(m.body).value in optional
  }

  class Database {
    const symbols: seq<SymbolEntry>
    const env: Env
    ghost const table: seq<Entry>
    ghost const rank: U32 -> nat
    ghost const optional: set<U32>

    constructor (
        symbols: seq<SymbolEntry>, env: Env, ghost table: seq<Entry>, ghost rank: U32 -> nat,
        ghost optional: set<U32>)
      requires Loads(symbols, table) && StrictlyIncreasing(table) && Acyclic(table, rank)
      requires CoversOptional(table, optional)
      requires forall e :: e in AllEntries(symbols) ==> e.symbolPtrCache <= 1
      ensures this.symbols == symbols && this.env == env && this.table == table && this.rank == rank
      ensures this.optional == optional && Valid()
    {
      this.symbols, this.env, this.table, this.rank, this.optional := symbols, env, table, rank, optional;
      forall e | e in AllEntries(symbols)
        ensures SourceBelow(rank, e.record)
      {
        LoadedBelow(symbols, table, rank, e);
      }
    }

    ghost predicate WellFormed()
    {
      && Loads(symbols, table) && StrictlyIncreasing(table) && Acyclic(table, rank)
      && CoversOptional(table, optional)
    }

    /** Every cache is empty, switched off, or sound. */
    ghost predicate Valid()
      reads AllEntries(symbols)
    {
      WellFormed() && forall e :: e in AllEntries(symbols) ==> CacheSound(e)
    }

    ghost predicate CacheSound(e: SymbolEntry)
      requires WellFormed()
      reads e
    {
      SourceBelow(rank, e.record) && Sound(e.record, e.symbolPtrCache)
    }

    /** A cached value is what the record resolves to, and is there in spite of an abort only where
        an abort may be hidden. Nothing is known of a record that may be spoiled. */
    ghost predicate Sound(e: Entry, cached: U64)
      requires WellFormed() && SourceBelow(rank, e)
    {
      cached <= 1 || Spoiled(e)
      || (Eval(table, rank, env, e, false) == Wrote(cached)
          && (Eval(table, rank, env, e, true).Aborted? ==> MayHide(e)))
    }

    /** Failing is not always fatal: the record is an alternative of a list, or of an optional name. */
    ghost predicate MayFail(e: Entry) { e.hash in optional || Find(table, e.hash) != Some(e) }

    /** The record computes from an output never written, or leaves one unwritten for another. */
    ghost predicate Unset(e: Entry, abort: bool)
      requires WellFormed() && SourceBelow(rank, e)
    {
      match Eval(table, rank, env, e, abort)
      case Garbage => true
      case Kept => Find(table, e.hash) == Some(e) && IsSource(table, e.hash)
      case _ => false
    }

    /** A number that was never written may end in the cache of the record. */
    ghost predicate Spoiled(e: Entry)
      requires WellFormed() && SourceBelow(rank, e)
      decreases rank(e.hash)
    {
      if MayFail(e) then Unset(e, false)
      else Unset(e, true) || (Source(e).Some? && Spoiled(Source(e).value))
    }

    /** The record, or one it is built on, may be tried where failing is not fatal, and then fails
        with a value that is cached and hides the abort later. */
    ghost predicate MayHide(e: Entry)
      requires WellFormed() && SourceBelow(rank, e)
      decreases rank(e.hash)
    {
      || (MayFail(e) && Eval(table, rank, env, e, true).Aborted? && Eval(table, rank, env, e, false).Wrote?
          && Eval(table, rank, env, e, false).value > 1)
      || (Source(e).Some? && MayHide(Source(e).value))
    }

    /** The record that `e` is built on. */
    ghost function Source(e: Entry): (r: Option<Entry>)
      requires WellFormed() && SourceBelow(rank, e)
      ensures r.Some? ==> SourceBelow(rank, r.value) && rank(r.value.hash) < rank(e.hash)
    {
      if SourceHash(e.body).Some? then Find(table, SourceHash(e.body).value) else None
    }

    ghost predicate IsMember(e: Entry) { exists t :: t in table && e in Members(t) }

    /** What is built on by something optional is optional. */
    lemma SourceMayFail(e: Entry, name: U32)
      requires WellFormed() && IsMember(e) && MayFail(e) && SourceHash(e.body) == Some(name)
      ensures name in optional
    {
      var t :| t in table && e in Members(t);
      if !t.body.MultipleBody? {
        var k :| 0 <= k < |table| && table[k] == t;
        FindsOwn(table, k);
      }
    }

    /** A source that leaves its output unwritten is spoiled; the source of an unspoiled record is
        not, and it writes its output or aborts. */
    lemma SourceIsSafe(e: Entry, name: U32, src: Entry, abort: bool)
      requires WellFormed() && IsMember(e) && SourceBelow(rank, e) && SourceBelow(rank, src)
      requires SourceHash(e.body) == Some(name) && Find(table, name) == Some(src)
      requires abort || MayFail(e)
      ensures abort || MayFail(src)
      ensures Eval(table, rank, env, src, abort).Kept? ==> Spoiled(src)
      ensures !Spoiled(e) ==> !Spoiled(src)
      ensures !Spoiled(e) ==> !Eval(table, rank, env, src, abort).Kept? && !Eval(table, rank, env, src, abort).Garbage?
    {
      if MayFail(e) {
        SourceMayFail(e, name);
      }
      assert IsSource(table, name);
      SourceKept(src, abort);
      if !Spoiled(e) {
        SourceUnspoiled(e, src, abort);
      }
    }

    lemma SourceKept(src: Entry, abort: bool)
      requires WellFormed() && SourceBelow(rank, src) && Find(table, src.hash) == Some(src)
      requires IsSource(table, src.hash) && (abort || MayFail(src))
      ensures Eval(table, rank, env, src, abort).Kept? ==> Spoiled(src)
    {
      AbortOnlyAborts(table, rank, env, src);
    }

    lemma SourceUnspoiled(e: Entry, src: Entry, abort: bool)
      requires WellFormed() && SourceBelow(rank, e) && SourceBelow(rank, src) && Source(e) == Some(src)
      requires !Spoiled(e) && (abort || MayFail(e)) && (MayFail(e) ==> MayFail(src))
      ensures !Spoiled(src)
      ensures !Eval(table, rank, env, src, abort).Kept? && !Eval(table, rank, env, src, abort).Garbage?
    {
      AbortOnlyAborts(table, rank, env, src);
    }

    /** What a call on `e` that started with `out0` in the output may do: when `e` resolves
        without caches it gives the same value; only an abort can be missed, and only where one may
        be hidden (`Passes` says when), and then the value is the one that not insisting on success
        gives. */
    ghost predicate Resolves(e: Entry, abort: bool, out0: U64, ok: bool, out: U64)
      requires WellFormed() && SourceBelow(rank, e)
    {
      if !ok then Eval(table, rank, env, e, abort).Aborted?
      else
        match Eval(table, rank, env, e, false)
        case Wrote(v) => out == v && (abort && Eval(table, rank, env, e, true).Aborted? ==> MayHide(e))
        case Kept => out == out0 && Eval(table, rank, env, e, abort).Kept?
        case _ => false
    }

    /** A call on `e` does not abort as the caches stand: its own value is cached, or the record
        passes. A cached value hides an abort of its own record and of all built on it. */
    ghost predicate Passes(e: SymbolEntry, abort: bool)
      requires WellFormed() && SourceBelow(rank, e.record)
      reads AllEntries(symbols), e
      decreases rank(e.record.hash), 1
    {
      e.symbolPtrCache > 1 || RecordPasses(e.record, abort)
    }

    ghost predicate RecordPasses(e: Entry, abort: bool)
      requires WellFormed() && SourceBelow(rank, e)
      reads AllEntries(symbols)
      decreases rank(e.hash), 0
    {
      match e.body
      case AdrpBody(source, lo) =>
        NamePasses(source, abort) && !ReadFrom(env, EvalSource(source), lo, abort).Aborted?
      case ArithmeticBody(source, _) => NamePasses(source, abort)
      case _ => !Eval(table, rank, env, e, abort).Aborted?
    }

    ghost predicate NamePasses(name: U32, abort: bool)
      requires WellFormed()
      reads AllEntries(symbols)
      decreases rank(name), 3
    {
      exists i :: 0 <= i < |symbols| && symbols[i].record.hash == name && PassesAt(i, abort)
    }

    ghost predicate PassesAt(i: nat, abort: bool)
      requires WellFormed() && i < |symbols|
      reads AllEntries(symbols)
      decreases rank(symbols[i].record.hash), 2
    {
      LoadedBelow(symbols, table, rank, symbols[i]);
      Passes(symbols[i], abort)
    }

    /** What the source of a record gives when failing is not fatal. */
    ghost function EvalSource(name: U32): Outcome
      requires Acyclic(table, rank)
    {
      match Find(table, name)
      case None => Aborted
      case Some(src) => Eval(table, rank, env, src, false)
    }

    /** The one record of a name decides. */
    lemma PassesByName(i: nat, name: U32, abort: bool)
      requires WellFormed() && i < |symbols| && symbols[i].record.hash == name
      ensures NamePasses(name, abort) <==> PassesAt(i, abort)
    {
      forall j: nat | j < |symbols| && symbols[j].record.hash == name
        ensures j == i
      {
        assert table[i].hash == table[j].hash;
      }
    }

    lemma PassesNowhere(name: U32, abort: bool)
      requires WellFormed() && Find(table, name).None?
      ensures !NamePasses(name, abort)
    {
      forall i: nat | i < |symbols|
        ensures symbols[i].record.hash != name
      {
        assert table[i].hash != name;
      }
    }

    /** With empty caches a call aborts exactly when the cacheless resolver does. */
    lemma {:induction false} ColdPasses(e: SymbolEntry, abort: bool)
      requires Valid() && e in AllEntries(symbols) && SourceBelow(rank, e.record)
      requires forall x :: x in AllEntries(symbols) ==> x.symbolPtrCache <= 1
      ensures Passes(e, abort) <==> !Eval(table, rank, env, e.record, abort).Aborted?
      decreases rank(e.record.hash)
    {
      var src := Source(e.record);
      if SourceHash(e.record.body).Some? {
        var source := SourceHash(e.record.body).value;
        if src.None? {
          PassesNowhere(source, abort);
        } else {
          var i := SymbolOf(source, src.value);
          PassesByName(i, source, abort);
          ColdPasses(symbols[i], abort);
        }
        PassesOnSource(e.record, source, abort);
      }
    }

    lemma SymbolOf(name: U32, src: Entry) returns (i: nat)
      requires WellFormed() && Find(table, name) == Some(src)
      ensures i < |symbols| && symbols[i].record == src && symbols[i] in AllEntries(symbols)
    {
      i :| i < |table| && table[i] == src;
    }

    /** A record passes with its source, where the source passes as without caches. */
    lemma PassesOnSource(e: Entry, source: U32, abort: bool)
      requires WellFormed() && SourceBelow(rank, e) && SourceHash(e.body) == Some(source)
      requires NamePasses(source, abort) <==>
               Source(e).Some? && !Eval(table, rank, env, Source(e).value, abort).Aborted?
      ensures RecordPasses(e, abort) <==> !Eval(table, rank, env, e, abort).Aborted?
    {
      if Source(e).Some? {
        AbortOnlyAborts(table, rank, env, Source(e).value);
      }
    }

    /** `SymbolEntry::apply`; `ok` is false when the program aborts. */
    method Apply(e: SymbolEntry, abort: bool, out0: U64) returns (ok: bool, out: U64)
      requires Valid() && e in AllEntries(symbols) && (abort || MayFail(e.record))
      requires Eval(table, rank, env, e.record, abort).Kept? ==> out0 == 0 || Spoiled(e.record)
      modifies AllEntries(symbols)
      ensures Valid() && SourceBelow(rank, e.record)
      ensures !Spoiled(e.record) ==> Resolves(e.record, abort, out0, ok, out) && (ok <==> old(Passes(e, abort)))
      ensures e.record.body.DataBlockBody? && ok && old(e.symbolPtrCache) == 0 ==> e.symbolPtrCache == out
      decreases rank(e.record.hash), if e.record.body.MultipleBody? then 5 else 1
    {
      if e.symbolPtrCache > 1 {
        return true, e.symbolPtrCache;
      }
      ok, out := ApplyRecord(e, abort, out0);
      if ok && e.symbolPtrCache != 1 {
        ResolvedIsSound(e.record, abort, out0, out);
        Store(e, out);
      }
    }

    /** The call by type. */
    method ApplyRecord(e: SymbolEntry, abort: bool, out0: U64) returns (ok: bool, out: U64)
      requires Valid() && e in AllEntries(symbols) && (abort || MayFail(e.record))
      modifies AllEntries(symbols)
      ensures Valid() && SourceBelow(rank, e.record)
      ensures !Spoiled(e.record) ==>
                Resolves(e.record, abort, out0, ok, out) && (ok <==> old(RecordPasses(e.record, abort)))
      ensures e.record.body.DataBlockBody? ==> e.symbolPtrCache == old(e.symbolPtrCache)
      decreases rank(e.record.hash), if e.record.body.MultipleBody? then 4 else 0, 2
    {
      LoadedMember(symbols, table, e);
      match e.record.body {
        case MultipleBody(_) =>
          ok, out := ApplyMultiple(e);
          ListResolves(e.record, abort, out0, ok, out);
        case AdrpBody(source, lo) =>
          ok, out := ApplyReadAdrp(e.record, source, lo, abort, out0);
        case ArithmeticBody(source, addend) =>
          ok, out := ApplyArithmetic(e.record, source, addend, abort, out0);
        case _ =>
          ok, out := ApplyDirect(e.record, e.record.body, abort, out0);
      }
    }

    lemma ResolvedIsSound(e: Entry, abort: bool, out0: U64, out: U64)
      requires WellFormed() && SourceBelow(rank, e) && (abort || MayFail(e))
      requires Eval(table, rank, env, e, abort).Kept? ==> out0 == 0 || Spoiled(e)
      requires !Spoiled(e) ==> Resolves(e, abort, out0, true, out)
      ensures Sound(e, out)
    {
    }

    method Store(e: SymbolEntry, out: U64)
      requires Valid() && e in AllEntries(symbols) && Sound(e.record, out)
      modifies e
      ensures Valid() && e.symbolPtrCache == out
    {
      e.symbolPtrCache := out;
    }

    method ApplyDirect(ghost e: Entry, body: Body, abort: bool, out0: U64) returns (ok: bool, out: U64)
      requires Valid() && SourceBelow(rank, e) && body == e.body
      requires body.ImmediateBody? || body.DynamicBody? || body.DataBlockBody?
      ensures Resolves(e, abort, out0, ok, out) && (ok <==> RecordPasses(e, abort))
    {
      var direct := EvalDirect(env, body, abort);
      ok := !direct.Aborted?;
      out := if direct.Wrote? then direct.value else out0;
    }

    method ApplyReadAdrp(ghost e: Entry, source: U32, lo: int, abort: bool, out0: U64) returns (ok: bool, out: U64)
      requires Valid() && SourceBelow(rank, e) && e.body == AdrpBody(source, lo)
      requires IsMember(e) && (abort || MayFail(e))
      modifies AllEntries(symbols)
      ensures Valid()
      ensures !Spoiled(e) ==> Resolves(e, abort, out0, ok, out) && (ok <==> old(RecordPasses(e, abort)))
      decreases rank(e.hash), 0, 1
    {
      var at: U64;
      ok, at := ApplySource(source, e, abort);
      ghost var sourceOk := ok;
      out := out0;
      if ok {
        var read := env.readAdrp(at, lo);
        if read.Some? {
          out := read.value;
        } else if abort {
          ok := false;
        }
      }
      if !Spoiled(e) {
        ReadAdrpResolves(e, source, lo, abort, out0, sourceOk, at);
      }
    }

    ghost predicate SourceGives(source: U32, abort: bool, ok: bool, at: U64)
      requires WellFormed()
    {
      match Find(table, source)
      case None => !ok
      case Some(src) =>
        if ok then
          && Eval(table, rank, env, src, false) == Wrote(at)
          && (abort && Eval(table, rank, env, src, true).Aborted? ==> MayHide(src))
        else Eval(table, rank, env, src, abort).Aborted?
    }

    lemma ReadAdrpResolves(e: Entry, source: U32, lo: int, abort: bool, out0: U64, ok: bool, at: U64)
      requires WellFormed() && SourceBelow(rank, e)
      requires e.body == AdrpBody(source, lo) && SourceGives(source, abort, ok, at)
      ensures Resolves(e, abort, out0, ok && (env.readAdrp(at, lo).Some? || !abort),
                       if ok && env.readAdrp(at, lo).Some? then env.readAdrp(at, lo).value else out0)
    {
      if ok {
        AbortOnlyAborts(table, rank, env, Find(table, source).value);
      }
    }

    lemma ArithmeticResolves(e: Entry, source: U32, addend: int, abort: bool, out0: U64, ok: bool, at: U64)
      requires WellFormed() && SourceBelow(rank, e) && e.body == ArithmeticBody(source, addend)
      requires SourceGives(source, abort, ok, at)
      ensures Resolves(e, abort, out0, ok, Wrap64(at + addend))
    {
    }

    method ApplyArithmetic(ghost e: Entry, source: U32, addend: int, abort: bool, ghost out0: U64)
      returns (ok: bool, out: U64)
      requires Valid() && SourceBelow(rank, e) && e.body == ArithmeticBody(source, addend)
      requires IsMember(e) && (abort || MayFail(e))
      modifies AllEntries(symbols)
      ensures Valid()
      ensures !Spoiled(e) ==> Resolves(e, abort, out0, ok, out) && (ok <==> old(RecordPasses(e, abort)))
      decreases rank(e.hash), 0, 1
    {
      var at: U64;
      ok, at := ApplySource(source, e, abort);
      out := Wrap64(at + addend);
      if !Spoiled(e) {
        ArithmeticResolves(e, source, addend, abort, out0, ok, at);
      }
    }

    /** `lookupSymbolByHash` and the call on what it finds. The output starts uninitialised. */
    method ApplySource(source: U32, ghost user: Entry, abort: bool) returns (ok: bool, at: U64)
      requires Valid() && SourceBelow(rank, user) && SourceHash(user.body) == Some(source)
      requires IsMember(user) && (abort || MayFail(user))
      modifies AllEntries(symbols)
      ensures Valid()
      ensures !Spoiled(user) ==> SourceGives(source, abort, ok, at) && (ok <==> old(NamePasses(source, abort)))
      decreases rank(user.hash), 0, 0
    {
      at := *;
      var records := Records(symbols, table);
      var idx := BinarySearch(records, source);
      if idx == -1 {
        PassesNowhere(source, abort);
        return false, at;
      }
      PassesByName(idx, source, abort);
      ghost var src, unset := table[idx], at;
      SourceIsSafe(user, source, src, abort);
      ok, at := Apply(symbols[idx], abort, at);
      if !Spoiled(user) {
        SourceResolves(source, src, abort, unset, ok, at);
      }
    }

    lemma SourceResolves(source: U32, src: Entry, abort: bool, unset: U64, ok: bool, at: U64)
      requires WellFormed() && SourceBelow(rank, src) && Find(table, source) == Some(src)
      requires !Eval(table, rank, env, src, abort).Kept? && Resolves(src, abort, unset, ok, at)
      ensures SourceGives(source, abort, ok, at)
    {
    }

    /** `lookupSymbolFromDb`: a missing symbol is 0, or an abort when `abort` is set; a symbol that
        is there must resolve. */
    method Lookup(destHash: U32, abort: bool) returns (ok: bool, out: U64)
      requires Valid()
      modifies AllEntries(symbols)
      ensures Valid()
      ensures Find(table, destHash).None? ==> ok == !abort && (ok ==> out == 0)
      ensures Find(table, destHash).Some? && !Spoiled(Find(table, destHash).value) ==>
                && Resolves(Find(table, destHash).value, true, 0, ok, out)
                && (ok <==> old(NamePasses(destHash, true)))
    {
      out := 0;
      var idx := BinarySearch(Records(symbols, table), destHash);
      if idx == -1 {
        ok := !abort;
      } else {
        PassesByName(idx, destHash, true);
        ok, out := Apply(symbols[idx], true, out);
      }
    }

    /** Such a miss happens: let a block not be found and have an offset above 1. Once an alternative
        has tried it, which is not fatal, looking it up gives the offset instead of the abort. */
    method LookupAfterAlternative(i: nat, ghost v: U64) returns (ok: bool, out: U64)
      requires Valid() && i < |symbols| && symbols[i].symbolPtrCache == 0
      requires symbols[i].record.body.DataBlockBody? && symbols[i].record.hash in optional
      requires EvalDataBlock(env, symbols[i].record.body, true).Aborted?
      requires EvalDataBlock(env, symbols[i].record.body, false) == Wrote(v) && v > 1
      modifies AllEntries(symbols)
      ensures Valid() && ok && out == v
    {
      var hash := symbols[i].record.hash;
      FindsOwn(table, i);
      ok, out := Apply(symbols[i], false, 0);
      PassesByName(i, hash, true);
      ok, out := Lookup(hash, true);
    }

    /** `applyMultipleCandidateSymbol`: immediate candidates first, then all of them in order; the
        first nonzero result wins. */
    method ApplyMultiple(e: SymbolEntry) returns (ok: bool, out: U64)
      requires Valid() && e in AllEntries(symbols) && e.record.body.MultipleBody?
      modifies AllEntries(symbols)
      ensures Valid() && SourceBelow(rank, e.record)
      ensures !Spoiled(e.record) ==> ListGives(e.record, ok, out)
      decreases rank(e.record.hash), 3
    {
      assert e.record.body.candidates[0..] == e.record.body.candidates;
      ok, out := ApplyFirst(e, true);
      if !ok || out != 0 {
        return;
      }
      ok, out := ApplyFirst(e, false);
      if ok && out == 0 {
        ok := false;
      }
    }

    /** A list fails for good or not at all. */
    ghost predicate ListGives(e: Entry, ok: bool, out: U64)
      requires WellFormed() && SourceBelow(rank, e)
    {
      Eval(table, rank, env, e, true) == if ok then Wrote(out) else Aborted
    }

    lemma ListResolves(e: Entry, abort: bool, out0: U64, ok: bool, out: U64)
      requires WellFormed() && SourceBelow(rank, e) && e.body.MultipleBody?
      ensures ListGives(e, ok, out) ==> Resolves(e, abort, out0, ok, out)
    {
    }

    /** One of the two loops: `out` stays 0 until a candidate gives something else. */
    method ApplyFirst(e: SymbolEntry, onlyImmediates: bool) returns (ok: bool, out: U64)
      requires Valid() && e in AllEntries(symbols) && e.record.body.MultipleBody?
      modifies AllEntries(symbols)
      ensures Valid() && SourceBelow(rank, e.record)
      ensures FirstIs(e.record, onlyImmediates, ok, out)
      decreases rank(e.record.hash), 2
    {
      ListIsInTable(e);
      ghost var records := e.record.body.candidates;
      ghost var first := FirstFrom(e.record, onlyImmediates, 0);
      ok, out := true, 0;
      var i := 0;
      while i < |e.candidates|
        invariant i <= |e.candidates| == |records|
        invariant Valid()
        invariant !first.Garbage? ==> FirstFrom(e.record, onlyImmediates, i) == first
        invariant ok && out == 0
      {
        var cur := e.candidates[i];
        assert cur.record in records;
        if !onlyImmediates || cur.record.body.ImmediateBody? {
          AlternativeMayFail(e.record, cur.record);
          CandidateStep(e.record, onlyImmediates, i);
          ok, out := Apply(cur, false, 0);
          if !ok || out != 0 {
            return;
          }
        }
        i := i + 1;
      }
    }

    /** What a loop over the candidates ends with, unless it computes from an output never written. */
    ghost predicate FirstIs(e: Entry, onlyImmediates: bool, ok: bool, out: U64)
      requires WellFormed() && e.body.MultipleBody? && SourceBelow(rank, e)
    {
      var first := FirstFrom(e, onlyImmediates, 0);
      first.Garbage? || (if !ok then first.Aborted? else if out != 0 then first == Wrote(out) else first.Kept?)
    }

    ghost function FirstFrom(e: Entry, onlyImmediates: bool, i: nat): Outcome
      requires Acyclic(table, rank) && e.body.MultipleBody? && SourceBelow(rank, e) && i <= |e.body.candidates|
    {
      EvalCandidates(table, rank, env, e.body.candidates[i..], e.hash, onlyImmediates)
    }

    lemma CandidateStep(e: Entry, onlyImmediates: bool, i: nat)
      requires Acyclic(table, rank) && e.body.MultipleBody? && SourceBelow(rank, e) && i < |e.body.candidates|
      requires !onlyImmediates || e.body.candidates[i].body.ImmediateBody?
      ensures FirstFrom(e, onlyImmediates, i) ==
                match Eval(table, rank, env, e.body.candidates[i], false)
                case Wrote(v) => if v != 0 then Wrote(v) else FirstFrom(e, onlyImmediates, i + 1)
                case Kept => FirstFrom(e, onlyImmediates, i + 1)
                case other => other
    {
      assert e.body.candidates[i..][1..] == e.body.candidates[i + 1..];
    }

    lemma ListIsInTable(e: SymbolEntry)
      requires Valid() && e in AllEntries(symbols) && e.record.body.MultipleBody?
      ensures e in symbols && e.record in table && Holds(e, e.record)
      ensures Find(table, e.record.hash) == Some(e.record)
      ensures forall c :: c in e.candidates ==> c in AllEntries(symbols)
    {
      LoadedBelow(symbols, table, rank, e);
      var i :| 0 <= i < |symbols| && symbols[i] == e;
      assert table[i] == e.record;
      FindsOwn(table, i);
    }

    /** Failing is never fatal for an alternative, and nothing is built on it alone. */
    lemma AlternativeMayFail(list: Entry, c: Entry)
      requires WellFormed() && list.body.MultipleBody? && SourceBelow(rank, list) && c in list.body.candidates
      requires Find(table, list.hash) == Some(list)
      ensures SourceBelow(rank, c) && MayFail(c)
      ensures Spoiled(c) <==> Eval(table, rank, env, c, false).Garbage?
    {
    }
  }

  lemma FindsOwn(table: seq<Entry>, k: nat)
    requires StrictlyIncreasing(table) && k < |table|
    ensures Find(table, table[k].hash) == Some(table[k])
  {
  }

  lemma LoadedMember(symbols: seq<SymbolEntry>, table: seq<Entry>, e: SymbolEntry)
    requires Loads(symbols, table) && e in AllEntries(symbols)
    ensures e.record.body.MultipleBody? || exists t :: t in table && e.record in Members(t)
  {
    if e in symbols {
      var i :| 0 <= i < |symbols| && symbols[i] == e;
      assert table[i] in table && table[i] == e.record;
    } else {
      var x, c :| x in symbols && c in x.candidates && c == e;
      var i :| 0 <= i < |symbols| && symbols[i] == x;
      var k :| 0 <= k < |x.candidates| && x.candidates[k] == e;
      assert e.record in Members(table[i]);
    }
  }

  lemma LoadedBelow(symbols: seq<SymbolEntry>, table: seq<Entry>, rank: U32 -> nat, e: SymbolEntry)
    requires Loads(symbols, table) && Acyclic(table, rank) && e in AllEntries(symbols)
    ensures SourceBelow(rank, e.record)
    ensures e.record.body.MultipleBody? ==> e in symbols
  {
    if e in symbols {
      var i :| 0 <= i < |symbols| && symbols[i] == e;
      assert table[i] in table;
    } else {
      var x, c :| x in symbols && c in x.candidates && c == e;
      var i :| 0 <= i < |symbols| && symbols[i] == x;
      assert table[i] in table;
      var k :| 0 <= k < |x.candidates| && x.candidates[k] == e;
      assert e.record == table[i].body.candidates[k];
      assert e.record in table[i].body.candidates;
    }
  }

  function Records(symbols: seq<SymbolEntry>, ghost table: seq<Entry>): (r: seq<Entry>)
    requires Loads(symbols, table)
    ensures r == table
  {
    seq(|symbols|, k requires 0 <= k < |symbols| => symbols[k].record)
  }

  /** The records that need no other record. */
  function EvalDirect(env: Env, body: Body, abort: bool): Outcome
    requires body.ImmediateBody? || body.DynamicBody? || body.DataBlockBody?
  {
    match body
    case ImmediateBody(bitset, moduleIdx, offset) => EvalImmediate(env, bitset, moduleIdx, offset, abort)
    case DynamicBody(elf, murmur, djb2) => EvalDynamic(env, elf, murmur, djb2, abort)
    case DataBlockBody(_, _, _, _, _, _) => EvalDataBlock(env, body, abort)
  }
}
