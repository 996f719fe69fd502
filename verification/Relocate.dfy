/** Relocating a loaded module in place (hakkun/src/rtld/RoModule.cpp: `Relocate`,
    `ResolveSymbol`, `ResolveSymbols`). */
module Relocate {
  import opened ElfLookup
  import opened Hashing
  import opened Options
  import opened Words

  datatype Type = Absolute | GlobDat | JumpSlot | Relative | Other

  datatype Entry =
    | Rel(offset: nat, kind: Type, symIndex: nat)
    | Rela(offset: nat, kind: Type, symIndex: nat, addend: int)

  /** Where symbols come from: the module itself, the automatically loaded modules in list order,
      and an optional manual lookup. */
  datatype Env = Env(h: Hashes, own: Module, autoLoad: seq<Module>, manual: Option<string -> U64>)

  function Read64(image: seq<U8>, at: nat): (v: U64)
    requires at + 8 <= |image|
  {
    WordBelow(image[at..at + 8]);
    WidthOfBytes(8);
    ReadWord(image, at, 8)
  }

  function Write64(image: seq<U8>, at: nat, v: U64): seq<U8>
    requires at + 8 <= |image|
  {
    WriteWord(image, at, 8, v)
  }

  lemma ReadWritten(image: seq<U8>, at: nat, v: U64, other: nat)
    requires at + 8 <= |image| && other + 8 <= |image| && (other == at || other + 8 <= at || at + 8 <= other)
    ensures Read64(Write64(image, at, v), other) == if other == at then v else Read64(image, other)
  {
    WidthOfBytes(8);
    ReadAfterWrite(image, at, 8, v, other);
  }

  // ----- what one entry does -----

  function ResolveSymbol(env: Env, symIndex: nat): Option<U64>
    requires symIndex < |env.own.symbols|
  {
    var symbol := env.own.symbols[symIndex];
    if symbol.hidden then
      match Scan(env.h, env.own, ByName(symbol.name), 0)
      case Some(i) => Some(Address(env.own, i))
      case None => if symbol.weak then Some(0) else None
    else
      var addr := Resolve(env.h, env.autoLoad, symbol.name);
      var last := if addr == 0 && env.manual.Some? then env.manual.value(symbol.name) else addr;
      if last != 0 then Some(last) else None
  }

  function RelocateValue(base: U64, e: Entry, old0: U64): Option<U64>
  {
    if !e.kind.Relative? then None
    else Some(if e.Rel? then Wrap64(old0 + base) else Wrap64(base + e.addend))
  }

  function ResolveValue(env: Env, e: Entry, old0: U64): Option<U64>
    requires e.symIndex < |env.own.symbols|
  {
    match ResolveSymbol(env, e.symIndex)
    case None => None
    case Some(addr) => Some(if e.Rel? then Wrap64(old0 + addr) else Wrap64(addr + e.addend))
  }

  type Action = (Entry, U64) -> Option<U64>

  function Relocating(base: U64): Action { (e: Entry, old0: U64) => RelocateValue(base, e, old0) }

  function Resolving(env: Env): Action
  {
    (e: Entry, old0: U64) => if e.symIndex < |env.own.symbols| then ResolveValue(env, e, old0) else None
  }

  /** Entries of other types are skipped by both passes. */
  predicate Targets(e: Entry, size: nat) { e.kind.Other? || e.offset + 8 <= size }

  function Value(f: Action, e: Entry, old0: U64): U64
  {
    match f(e, old0)
    case Some(v) => v
    case None => old0
  }

  function Step(f: Action, image: seq<U8>, e: Entry): (r: seq<U8>)
    requires Targets(e, |image|)
    ensures |r| == |image|
  {
    if e.kind.Other? then image
    else
      match f(e, Read64(image, e.offset))
      case Some(v) => Write64(image, e.offset, v)
      case None => image
  }

  ghost predicate AllTargets(entries: seq<Entry>, size: nat)
  {
    forall k :: 0 <= k < |entries| ==> Targets(entries[k], size)
  }

  ghost function Pass(f: Action, image: seq<U8>, entries: seq<Entry>): (r: seq<U8>)
    requires AllTargets(entries, |image|)
    ensures |r| == |image|
  {
    if entries == [] then image
    else Step(f, Pass(f, image, entries[..|entries| - 1]), entries[|entries| - 1])
  }

  lemma {:induction false} PassConcat(f: Action, image: seq<U8>, a: seq<Entry>, b: seq<Entry>)
    requires AllTargets(a, |image|) && AllTargets(b, |image|)
    ensures AllTargets(a + b, |image|)
    ensures Pass(f, image, a + b) == Pass(f, Pass(f, image, a), b)
    decreases |b|
  {
    if b == [] {
      assert a + b == a;
    } else {
      var all, front, last := a + b, b[..|b| - 1], b[|b| - 1];
      PassConcat(f, image, a, front);
      assert all[|all| - 1] == last && all[..|all| - 1] == a + front;
    }
  }

  // ----- a pass over disjoint slots -----

  predicate Apart(a: Entry, b: Entry)
  {
    a.kind.Other? || b.kind.Other? || a.offset + 8 <= b.offset || b.offset + 8 <= a.offset
  }

  ghost predicate Disjoint(entries: seq<Entry>)
  {
    forall j, k :: 0 <= j < k < |entries| ==> Apart(entries[j], entries[k])
  }

  predicate InSlot(e: Entry, k: int) { !e.kind.Other? && e.offset <= k < e.offset + 8 }

  ghost predicate Untouched(entries: seq<Entry>, k: int) { forall e :: e in entries ==> !InSlot(e, k) }

  /** Every slot holds what its entry makes of the old word, every other byte is the old one. */
  ghost predicate IsPass(f: Action, before: seq<U8>, after: seq<U8>, entries: seq<Entry>)
    requires AllTargets(entries, |before|) && |after| == |before|
  {
    && (forall e :: e in entries && !e.kind.Other? ==> Read64(after, e.offset) == Value(f, e, Read64(before, e.offset)))
    && (forall k :: 0 <= k < |before| && Untouched(entries, k) ==> after[k] == before[k])
  }

  lemma StepSlot(f: Action, image: seq<U8>, e: Entry, at: nat)
    requires Targets(e, |image|) && at + 8 <= |image|
    requires !e.kind.Other? ==> at == e.offset || at + 8 <= e.offset || e.offset + 8 <= at
    ensures Read64(Step(f, image, e), at) ==
      if !e.kind.Other? && at == e.offset then Value(f, e, Read64(image, at)) else Read64(image, at)
  {
    if !e.kind.Other? && f(e, Read64(image, e.offset)).Some? {
      ReadWritten(image, e.offset, f(e, Read64(image, e.offset)).value, at);
    }
  }

  lemma {:induction false} PassSlots(f: Action, image: seq<U8>, entries: seq<Entry>)
    requires AllTargets(entries, |image|) && Disjoint(entries)
    ensures IsPass(f, image, Pass(f, image, entries), entries)
    decreases |entries|
  {
    if entries != [] {
      var front, last := entries[..|entries| - 1], entries[|entries| - 1];
      assert entries == front + [last];
      PassSlots(f, image, front);
      var mid := Pass(f, image, front);
      SlotUntouched(f, image, mid, front, last);
      forall e | e in entries && !e.kind.Other?
        ensures Read64(Step(f, mid, last), e.offset) == Value(f, e, Read64(image, e.offset))
      {
        assert e in front || e == last;
        if e in front {
          var j :| 0 <= j < |front| && front[j] == e;
          assert Apart(entries[j], entries[|entries| - 1]);
        }
        StepSlot(f, mid, last, e.offset);
      }
      forall k | 0 <= k < |image| && Untouched(entries, k)
        ensures Step(f, mid, last)[k] == image[k]
      {
        assert !InSlot(last, k) && Untouched(front, k);
      }
    }
  }

  lemma SlotUntouched(f: Action, image: seq<U8>, mid: seq<U8>, front: seq<Entry>, last: Entry)
    requires AllTargets(front, |image|) && Targets(last, |image|) && |mid| == |image| && IsPass(f, image, mid, front)
    requires forall j :: 0 <= j < |front| ==> Apart(front[j], last)
    ensures !last.kind.Other? ==> Read64(mid, last.offset) == Read64(image, last.offset)
  {
    if !last.kind.Other? {
      forall k | last.offset <= k < last.offset + 8
        ensures mid[k] == image[k]
      {
        assert Untouched(front, k);
      }
      assert mid[last.offset..last.offset + 8] == image[last.offset..last.offset + 8];
    }
  }

  /** Slots and the bytes between them determine the image. */
  lemma SameImage(a: seq<U8>, b: seq<U8>, entries: seq<Entry>)
    requires |a| == |b| && AllTargets(entries, |a|)
    requires forall e :: e in entries && !e.kind.Other? ==> Read64(a, e.offset) == Read64(b, e.offset)
    requires forall k :: 0 <= k < |a| && Untouched(entries, k) ==> a[k] == b[k]
    ensures a == b
  {
    forall k | 0 <= k < |a|
      ensures a[k] == b[k]
    {
      if !Untouched(entries, k) {
        var e :| e in entries && InSlot(e, k);
        var sa, sb := a[e.offset..e.offset + 8], b[e.offset..e.offset + 8];
        WordIsInjective(sa, sb);
        assert a[k] == sa[k - e.offset] && b[k] == sb[k - e.offset];
      }
    }
  }

  // ----- both passes -----

  /** A module's relocation tables; `dyn` is the DT_REL or the DT_RELA table. */
  datatype Tables = Tables(dyn: seq<Entry>, plt: seq<Entry>, pltGot: Option<nat>)

  ghost predicate Fits(tables: Tables, size: nat)
  {
    && AllTargets(tables.dyn, size) && AllTargets(tables.plt, size)
    && (tables.pltGot.Some? ==> tables.pltGot.value + 24 <= size)
  }

  /** The third word of the global offset table is cleared. */
  function ClearGot(image: seq<U8>, pltGot: Option<nat>): (r: seq<U8>)
    requires pltGot.Some? ==> pltGot.value + 24 <= |image|
    ensures |r| == |image|
  {
    if pltGot.Some? then Write64(image, pltGot.value + 16, 0) else image
  }

  ghost function Relocated(base: U64, tables: Tables, image: seq<U8>): (r: seq<U8>)
    requires Fits(tables, |image|)
    ensures |r| == |image|
  {
    Pass(Relocating(base), image, tables.dyn)
  }

  ghost function Resolved(env: Env, tables: Tables, image: seq<U8>): (r: seq<U8>)
    requires Fits(tables, |image|)
    ensures |r| == |image|
  {
    ClearGot(Pass(Resolving(env), Pass(Resolving(env), image, tables.dyn), tables.plt), tables.pltGot)
  }

  class RoModule {
    const base: U64
    const tables: Tables
    const memory: array<U8>

    constructor (base: U64, tables: Tables, memory: array<U8>)
      requires Fits(tables, memory.Length)
      ensures this.base == base && this.tables == tables && this.memory == memory && Valid()
    {
      this.base, this.tables, this.memory := base, tables, memory;
    }

    ghost predicate Valid() { Fits(tables, memory.Length) }

    method Store(at: nat, v: U64)
      requires at + 8 <= memory.Length
      modifies memory
      ensures memory[..] == Write64(old(memory[..]), at, v)
    {
      var bytes := Bytes(v, 8);
      var i := 0;
      while i < 8
        invariant i <= 8
        invariant forall k :: at <= k < at + i ==> memory[k] == bytes[k - at]
        invariant forall k :: 0 <= k < memory.Length && !(at <= k < at + i) ==> memory[k] == old(memory[k])
      {
        memory[at + i] := bytes[i];
        i := i + 1;
      }
    }

    method Load(at: nat) returns (v: U64)
      requires at + 8 <= memory.Length
      ensures v == Read64(memory[..], at)
    {
      v := Read64(memory[..], at);
    }

    method ApplyEntry(f: Action, e: Entry)
      requires Targets(e, memory.Length)
      modifies memory
      ensures memory[..] == Step(f, old(memory[..]), e)
    {
      if !e.kind.Other? {
        var was := Load(e.offset);
        var value := f(e, was);
        if value.Some? {
          Store(e.offset, value.value);
        }
      }
    }

    method ForEachRelocation(f: Action, entries: seq<Entry>)
      requires AllTargets(entries, memory.Length)
      modifies memory
      ensures memory[..] == Pass(f, old(memory[..]), entries)
    {
      var i := 0;
      while i < |entries|
        invariant i <= |entries|
        invariant memory[..] == Pass(f, old(memory[..]), entries[..i])
      {
        assert entries[..i + 1][..i] == entries[..i];
        ApplyEntry(f, entries[i]);
        i := i + 1;
      }
      assert entries[..i] == entries;
    }

    method Relocate()
      requires Valid()
      modifies memory
      ensures memory[..] == Relocated(base, tables, old(memory[..]))
    {
      ForEachRelocation(Relocating(base), tables.dyn);
    }

    method ResolveSymbols(env: Env)
      requires Valid()
      modifies memory
      ensures memory[..] == Resolved(env, tables, old(memory[..]))
    {
      ForEachRelocation(Resolving(env), tables.dyn);
      ForEachRelocation(Resolving(env), tables.plt);
      if tables.pltGot.Some? {
        Store(tables.pltGot.value + 16, 0);
      }
    }
  }

  // ----- what a symbol resolves to -----

  predicate IsOwnPlace(own: Module, name: string, i: nat, r: Option<U64>)
  {
    DefinesFirst(own, name, i) && r == Some((own.base + own.symbols[i].value) % TWO64)
  }

  /** A symbol that is not visible is the module's own first definition of its name, or 0 when it is
      weak and not defined. */
  ghost predicate IsOwnAddress(own: Module, symbol: Sym, r: Option<U64>)
  {
    || (exists i: nat :: IsOwnPlace(own, symbol.name, i, r))
    || (NotDefined(own, symbol.name) && r == if symbol.weak then Some(0) else None)
  }

  /** A visible one is the first definition in list order, if its address is not 0, else what the
      manual lookup gives, if that is not 0. */
  ghost predicate IsImportedAddress(env: Env, name: string, r: Option<U64>)
  {
    exists address: U64 :: IsGlobalAddress(env.autoLoad, name, address) && IsChosen(env, name, address, r)
  }

  predicate IsChosen(env: Env, name: string, address: U64, r: Option<U64>)
  {
    if address != 0 then r == Some(address)
    else if env.manual.Some? && env.manual.value(name) != 0 then r == Some(env.manual.value(name))
    else r == None
  }

  ghost predicate IsSymbolAddress(env: Env, symIndex: nat, r: Option<U64>)
    requires symIndex < |env.own.symbols|
  {
    var symbol := env.own.symbols[symIndex];
    if symbol.hidden then IsOwnAddress(env.own, symbol, r) else IsImportedAddress(env, symbol.name, r)
  }

  lemma SymbolAddress(env: Env, symIndex: nat)
    requires symIndex < |env.own.symbols|
    ensures IsSymbolAddress(env, symIndex, ResolveSymbol(env, symIndex))
  {
    var symbol := env.own.symbols[symIndex];
    ScanDefines(env.h, env.own, symbol.name);
    ResolvesGlobally(env.h, env.autoLoad, symbol.name);
    if symbol.hidden {
      var own := Scan(env.h, env.own, ByName(symbol.name), 0);
      assert own.Some? ==> IsOwnPlace(env.own, symbol.name, own.value, ResolveSymbol(env, symIndex));
    } else {
      var address := Resolve(env.h, env.autoLoad, symbol.name);
      assert IsChosen(env, symbol.name, address, ResolveSymbol(env, symIndex));
    }
  }

  /** A symbol resolves to one address at most. */
  lemma OneSymbolAddress(env: Env, symIndex: nat, a: Option<U64>, b: Option<U64>)
    requires symIndex < |env.own.symbols| && IsSymbolAddress(env, symIndex, a) && IsSymbolAddress(env, symIndex, b)
    ensures a == b
  {
    var symbol := env.own.symbols[symIndex];
    if symbol.hidden {
      if i: nat :| IsOwnPlace(env.own, symbol.name, i, a) {
        assert !NotDefined(env.own, symbol.name);
        var j: nat :| IsOwnPlace(env.own, symbol.name, j, b);
        assert !(i < j) && !(j < i);
      }
    } else {
      var x: U64 :| IsGlobalAddress(env.autoLoad, symbol.name, x) && IsChosen(env, symbol.name, x, a);
      var y: U64 :| IsGlobalAddress(env.autoLoad, symbol.name, y) && IsChosen(env, symbol.name, y, b);
      OneGlobalAddress(env.autoLoad, symbol.name, x, y);
    }
  }

  /** `ResolveSymbol` on a symbol, through the hash tables. */
  method ResolveThroughTables(env: Env, symIndex: nat) returns (address: Option<U64>)
    requires symIndex < |env.own.symbols|
    requires WellFormedModule(env.h, env.own) && forall m :: m in env.autoLoad ==> WellFormedModule(env.h, m)
    ensures address == ResolveSymbol(env, symIndex) && IsSymbolAddress(env, symIndex, address)
  {
    SymbolAddress(env, symIndex);
    var symbol := env.own.symbols[symIndex];
    if symbol.hidden {
      var own := GetSymbolByName(env.h, env.own, symbol.name);
      if own.None? {
        return if symbol.weak then Some(0) else None;
      }
      return Some(Address(env.own, own.value));
    }
    var addr := LookupSymbol(env.h, env.autoLoad, symbol.name);
    if addr == 0 && env.manual.Some? {
      addr := env.manual.value(symbol.name);
    }
    address := if addr != 0 then Some(addr) else None;
  }

  // ----- the loaded image -----

  ghost predicate AwayFromGot(tables: Tables)
  {
    tables.pltGot.Some? ==>
      forall e :: e in tables.dyn + tables.plt ==> Apart(e, Rel(tables.pltGot.value + 16, Absolute, 0))
  }

  /** What the slot of an entry of the dynamic table holds in the end. */
  function DynValue(base: U64, env: Env, e: Entry, old0: U64): U64
  {
    Value(Resolving(env), e, Value(Relocating(base), e, old0))
  }

  predicate InGot(tables: Tables, k: int)
  {
    tables.pltGot.Some? && tables.pltGot.value + 16 <= k < tables.pltGot.value + 24
  }

  ghost function Loaded(base: U64, env: Env, tables: Tables, image: seq<U8>): (r: seq<U8>)
    requires Fits(tables, |image|)
    ensures |r| == |image|
  {
    Resolved(env, tables, Relocated(base, tables, image))
  }

  lemma ResolvedSlots(env: Env, tables: Tables, image: seq<U8>)
    requires Fits(tables, |image|) && Disjoint(tables.dyn + tables.plt) && AwayFromGot(tables)
    ensures forall e :: e in tables.dyn + tables.plt && !e.kind.Other? ==>
      && e.offset + 8 <= |image|
      && Read64(Resolved(env, tables, image), e.offset) == Value(Resolving(env), e, Read64(image, e.offset))
    ensures tables.pltGot.Some? ==> Read64(Resolved(env, tables, image), tables.pltGot.value + 16) == 0
    ensures forall k :: 0 <= k < |image| && Untouched(tables.dyn + tables.plt, k) && !InGot(tables, k) ==>
      Resolved(env, tables, image)[k] == image[k]
  {
    var passed := BothTables(Resolving(env), tables, image);
    assert Resolved(env, tables, image) == ClearGot(passed, tables.pltGot);
    forall e | e in tables.dyn + tables.plt && !e.kind.Other?
      ensures e.offset + 8 <= |image| && Read64(ClearGot(passed, tables.pltGot), e.offset) == Read64(passed, e.offset)
    {
      if tables.pltGot.Some? {
        assert Apart(e, Rel(tables.pltGot.value + 16, Absolute, 0));
        ReadWritten(passed, tables.pltGot.value + 16, 0, e.offset);
      }
    }
    if tables.pltGot.Some? {
      ReadWritten(passed, tables.pltGot.value + 16, 0, tables.pltGot.value + 16);
    }
  }

  lemma BothTables(f: Action, tables: Tables, image: seq<U8>) returns (passed: seq<U8>)
    requires Fits(tables, |image|) && Disjoint(tables.dyn + tables.plt)
    ensures |passed| == |image| && AllTargets(tables.dyn + tables.plt, |image|)
    ensures passed == Pass(f, Pass(f, image, tables.dyn), tables.plt)
    ensures IsPass(f, image, passed, tables.dyn + tables.plt)
  {
    PassConcat(f, image, tables.dyn, tables.plt);
    PassSlots(f, image, tables.dyn + tables.plt);
    passed := Pass(f, image, tables.dyn + tables.plt);
  }

  lemma RelocatedSlots(base: U64, tables: Tables, image: seq<U8>)
    requires Fits(tables, |image|) && Disjoint(tables.dyn + tables.plt)
    ensures IsPass(Relocating(base), image, Relocated(base, tables, image), tables.dyn)
    ensures forall e :: e in tables.plt && !e.kind.Other? ==>
      e.offset + 8 <= |image| && Read64(Relocated(base, tables, image), e.offset) == Read64(image, e.offset)
  {
    var all := tables.dyn + tables.plt;
    forall j, k | 0 <= j < k < |tables.dyn|
      ensures Apart(tables.dyn[j], tables.dyn[k])
    {
      assert Apart(all[j], all[k]);
    }
    PassSlots(Relocating(base), image, tables.dyn);
    forall i | 0 <= i < |tables.plt| && !tables.plt[i].kind.Other?
      ensures tables.plt[i].offset + 8 <= |image|
      ensures Read64(Relocated(base, tables, image), tables.plt[i].offset) == Read64(image, tables.plt[i].offset)
    {
      forall j | 0 <= j < |tables.dyn|
        ensures Apart(tables.dyn[j], tables.plt[i])
      {
        assert Apart(all[j], all[|tables.dyn| + i]);
      }
      SlotUntouched(Relocating(base), image, Relocated(base, tables, image), tables.dyn, tables.plt[i]);
    }
  }

  /** After `Relocate` and `ResolveSymbols`, slot by slot, for REL and RELA tables alike; all other
      bytes are the file's, but for the cleared word of the global offset table. */
  lemma LoadedSlots(base: U64, env: Env, tables: Tables, image: seq<U8>)
    requires Fits(tables, |image|) && Disjoint(tables.dyn + tables.plt) && AwayFromGot(tables)
    ensures forall e :: e in tables.dyn && !e.kind.Other? ==>
      && e.offset + 8 <= |image|
      && Read64(Loaded(base, env, tables, image), e.offset) == DynValue(base, env, e, Read64(image, e.offset))
    ensures forall e :: e in tables.plt && !e.kind.Other? ==>
      && e.offset + 8 <= |image|
      && Read64(Loaded(base, env, tables, image), e.offset) == Value(Resolving(env), e, Read64(image, e.offset))
    ensures tables.pltGot.Some? ==> Read64(Loaded(base, env, tables, image), tables.pltGot.value + 16) == 0
    ensures forall k :: 0 <= k < |image| && Untouched(tables.dyn + tables.plt, k) && !InGot(tables, k) ==>
      Loaded(base, env, tables, image)[k] == image[k]
  {
    RelocatedSlots(base, tables, image);
    ResolvedSlots(env, tables, Relocated(base, tables, image));
    forall k | 0 <= k < |image| && Untouched(tables.dyn + tables.plt, k) && !InGot(tables, k)
      ensures Loaded(base, env, tables, image)[k] == image[k]
    {
      assert Untouched(tables.dyn, k);
    }
  }

  /** The loaded image depends on which entries there are, not on their order. */
  lemma LoadedInAnyOrder(base: U64, env: Env, tables: Tables, shuffled: Tables, image: seq<U8>)
    requires Fits(tables, |image|) && Disjoint(tables.dyn + tables.plt) && AwayFromGot(tables)
    requires Fits(shuffled, |image|) && Disjoint(shuffled.dyn + shuffled.plt) && AwayFromGot(shuffled)
    requires multiset(tables.dyn) == multiset(shuffled.dyn) && multiset(tables.plt) == multiset(shuffled.plt)
    requires tables.pltGot == shuffled.pltGot
    ensures Loaded(base, env, tables, image) == Loaded(base, env, shuffled, image)
  {
    assert forall e :: e in tables.dyn <==> e in multiset(tables.dyn);
    assert forall e :: e in tables.plt <==> e in multiset(tables.plt);
    LoadedSlots(base, env, tables, image);
    LoadedSlots(base, env, shuffled, image);
    var got := if tables.pltGot.Some? then [Rel(tables.pltGot.value + 16, Absolute, 0)] else [];
    var touched := tables.dyn + tables.plt + got;
    forall k | 0 <= k < |image| && Untouched(touched, k)
      ensures Loaded(base, env, tables, image)[k] == Loaded(base, env, shuffled, image)[k]
    {
      UntouchedByAll(tables, shuffled, got, k);
    }
    SameImage(Loaded(base, env, tables, image), Loaded(base, env, shuffled, image), touched);
  }

  lemma UntouchedByAll(tables: Tables, shuffled: Tables, got: seq<Entry>, k: int)
    requires got == if tables.pltGot.Some? then [Rel(tables.pltGot.value + 16, Absolute, 0)] else []
    requires forall e :: e in tables.dyn + tables.plt <==> e in shuffled.dyn + shuffled.plt
    requires Untouched(tables.dyn + tables.plt + got, k)
    ensures Untouched(tables.dyn + tables.plt, k) && Untouched(shuffled.dyn + shuffled.plt, k) && !InGot(tables, k)
  {
    var all := tables.dyn + tables.plt;
    assert forall e :: e in all ==> e in all + got;
    assert tables.pltGot.Some? ==> (all + got)[|all|] in all + got;
  }

  /** On RELA tables: a RELATIVE slot of the dynamic table ends as base plus addend exactly when its
      symbol does not resolve, or resolves to the base. Every other slot, and any slot of the PLT
      table, which the first pass leaves out, ends as address plus addend when its symbol
      resolves, and as it was in the file when it does not. */
  lemma RelaImage(base: U64, env: Env, tables: Tables, image: seq<U8>, e: Entry, symbol: Option<U64>)
    requires Fits(tables, |image|) && Disjoint(tables.dyn + tables.plt) && AwayFromGot(tables)
    requires e in tables.dyn + tables.plt && e.Rela? && !e.kind.Other? && e.symIndex < |env.own.symbols|
    requires IsSymbolAddress(env, e.symIndex, symbol)
    ensures e.offset + 8 <= |image|
    ensures var final := Read64(Loaded(base, env, tables, image), e.offset);
            if e in tables.dyn && e.kind.Relative? then
              final == (base + e.addend) % TWO64 <==> symbol == None || symbol == Some(base)
            else final == if symbol.Some? then (symbol.value + e.addend) % TWO64 else Read64(image, e.offset)
  {
    SymbolAddress(env, e.symIndex);
    OneSymbolAddress(env, e.symIndex, symbol, ResolveSymbol(env, e.symIndex));
    LoadedSlots(base, env, tables, image);
    if e in tables.dyn && e.kind.Relative? && ResolveSymbol(env, e.symIndex).Some? {
      SameSum(base, ResolveSymbol(env, e.symIndex).value, e.addend);
    }
  }

  /** On REL tables, where the addend is the word in the file: a RELATIVE slot of the dynamic table
      ends as that plus the base, plus the address as well when its symbol resolves; every other
      slot as that plus the address when its symbol resolves, and unchanged when it does not. */
  lemma RelImage(base: U64, env: Env, tables: Tables, image: seq<U8>, e: Entry, symbol: Option<U64>)
    requires Fits(tables, |image|) && Disjoint(tables.dyn + tables.plt) && AwayFromGot(tables)
    requires e in tables.dyn + tables.plt && e.Rel? && !e.kind.Other? && e.symIndex < |env.own.symbols|
    requires IsSymbolAddress(env, e.symIndex, symbol)
    ensures e.offset + 8 <= |image|
    ensures Read64(Loaded(base, env, tables, image), e.offset)
         == (Read64(image, e.offset) + (if e in tables.dyn && e.kind.Relative? then base else 0)
             + (if symbol.Some? then symbol.value else 0)) % TWO64
  {
    SymbolAddress(env, e.symIndex);
    OneSymbolAddress(env, e.symIndex, symbol, ResolveSymbol(env, e.symIndex));
    LoadedSlots(base, env, tables, image);
    RelValue(base, env, e, Read64(image, e.offset), symbol);
    if e in tables.dyn {
      NotInBoth(tables, e);
    }
  }

  lemma RelValue(base: U64, env: Env, e: Entry, old0: U64, symbol: Option<U64>)
    requires e.Rel? && e.symIndex < |env.own.symbols| && symbol == ResolveSymbol(env, e.symIndex)
    ensures Value(Resolving(env), e, old0) == (old0 + if symbol.Some? then symbol.value else 0) % TWO64
    ensures DynValue(base, env, e, old0)
         == (old0 + (if e.kind.Relative? then base else 0) + if symbol.Some? then symbol.value else 0) % TWO64
  {
    WrapTwice(old0 + base, if symbol.Some? then symbol.value else 0);
  }

  /** An entry that is in both tables would overlap itself. */
  lemma NotInBoth(tables: Tables, e: Entry)
    requires Disjoint(tables.dyn + tables.plt) && e in tables.dyn && !e.kind.Other?
    ensures e !in tables.plt
  {
    if e in tables.plt {
      var j :| 0 <= j < |tables.dyn| && tables.dyn[j] == e;
      var k :| 0 <= k < |tables.plt| && tables.plt[k] == e;
      EntriesApart(tables.dyn + tables.plt, j, |tables.dyn| + k);
    }
  }

  lemma EntriesApart(entries: seq<Entry>, j: nat, k: nat)
    requires Disjoint(entries) && j < k < |entries|
    ensures Apart(entries[j], entries[k])
  {
  }

  lemma SameSum(a: U64, b: U64, c: int)
    ensures Wrap64(a + c) == Wrap64(b + c) <==> a == b
  {
    if Wrap64(a + c) == Wrap64(b + c) {
      SmallMultipleIsZero(a - b, (a + c) / TWO64 - (b + c) / TWO64, TWO64);
    }
  }

  /** The symbol RELATIVE entries name, number 0, does not resolve while nobody defines the empty name. */
  lemma NullSymbolUnresolved(env: Env)
    requires |env.own.symbols| > 0 && env.own.symbols[0].name == "" && !env.own.symbols[0].hidden
    requires forall m :: m in env.autoLoad ==> Scan(env.h, m, ByName(""), 0) == None
    requires env.manual.Some? ==> env.manual.value("") == 0
    ensures ResolveSymbol(env, 0) == None
  {
    NotDefinedAnywhere(env.h, env.autoLoad, "");
  }

  lemma {:induction false} NotDefinedAnywhere(h: Hashes, modules: seq<Module>, name: string)
    requires forall m :: m in modules ==> Scan(h, m, ByName(name), 0) == None
    ensures Resolve(h, modules, name) == 0
  {
    if modules != [] {
      NotDefinedAnywhere(h, modules[1..], name);
    }
  }

  ghost predicate RepeatsSafely(base: U64, tables: Tables)
  {
    base == 0 || forall e :: e in tables.dyn && e.Rel? ==> !e.kind.Relative?
  }

  /** The word of a slot that was relocated, relocated again. */
  lemma AgainInSlot(base: U64, e: Entry, old0: U64)
    ensures var once := Value(Relocating(base), e, old0);
            Value(Relocating(base), e, once) == once <==> base == 0 || !e.Rel? || !e.kind.Relative?
  {
    var once := Value(Relocating(base), e, old0);
    SameSum(base, 0, once);
  }

  lemma TwiceInSlots(base: U64, tables: Tables, image: seq<U8>, e: Entry)
    requires Fits(tables, |image|) && Disjoint(tables.dyn) && e in tables.dyn && !e.kind.Other?
    ensures e.offset + 8 <= |image|
    ensures Read64(Relocated(base, tables, Relocated(base, tables, image)), e.offset)
         == Read64(Relocated(base, tables, image), e.offset)
       <==> base == 0 || !e.Rel? || !e.kind.Relative?
  {
    PassSlots(Relocating(base), image, tables.dyn);
    PassSlots(Relocating(base), Relocated(base, tables, image), tables.dyn);
    AgainInSlot(base, e, Read64(image, e.offset));
  }

  /** Relocating twice is relocating once, unless a REL entry would add a nonzero base again. */
  lemma RelocateTwice(base: U64, tables: Tables, image: seq<U8>)
    requires Fits(tables, |image|) && Disjoint(tables.dyn)
    ensures Relocated(base, tables, Relocated(base, tables, image)) == Relocated(base, tables, image)
       <==> RepeatsSafely(base, tables)
  {
    var once := Relocated(base, tables, image);
    var twice := Relocated(base, tables, once);
    if RepeatsSafely(base, tables) {
      PassSlots(Relocating(base), once, tables.dyn);
      forall e | e in tables.dyn && !e.kind.Other?
        ensures Read64(twice, e.offset) == Read64(once, e.offset)
      {
        TwiceInSlots(base, tables, image, e);
      }
      SameImage(twice, once, tables.dyn);
    } else {
      var e :| e in tables.dyn && e.Rel? && e.kind.Relative?;
      TwiceInSlots(base, tables, image, e);
    }
  }
}
