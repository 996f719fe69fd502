/** The symbol database that sail/src/fakelib.cpp compiles (`generateSymbolDb`) and the binary
    search that hakkun/include/hk/sail/detail.h finds symbols with (`lookupSymbolByHash`). */
module SailDb {
  import opened Hashing
  import opened Words
  import opened Options

  datatype Pattern = Pattern(data: seq<U8>, mask: seq<U8>)

  datatype Kind =
    | Immediate(moduleIdx: U32, offset: U32)
    | Dynamic(target: string)
    | DataBlock(pattern: Pattern, inModule: nat, boundary: nat, fromVersion: nat, section: nat, offs: int)
    | ReadAdrp(at: string, lo: int)
    | Arithmetic(base: string, addend: int)

  /** A source symbol, as sail/include/symbol.h holds it. */
  datatype Symbol = Symbol(name: string, kind: Kind, useCache: bool, versions: seq<nat>)

  datatype Body =
    | ImmediateBody(bitset: U64, moduleIdx: U32, offset: U32)
    | DynamicBody(elf: U64, murmur: U32, djb2: U32)
    | DataBlockBody(pattern: Pattern, inModule: U8, boundary: U8, fromVersion: U8, section: U8, offs: int)
    | AdrpBody(source: U32, lo: int)
    | ArithmeticBody(source: U32, addend: int)
    | MultipleBody(candidates: seq<Entry>)

  /** An emitted record: name hash, initial cache word, and what its type needs. */
  datatype Entry = Entry(hash: U32, cache: U64, body: Body)

  // ----- the version bitset -----

  /** `1 << ver` on a 32-bit int, widened to 64 bits: shifting into the sign makes it negative,
      and the sign is copied to every higher bit. */
  function VersionMask(ver: nat): nat
  {
    if ver % 32 < 31 then Pow2(ver % 32) else TWO64 - 0x8000_0000
  }

  function Bitset(versions: seq<nat>): nat
  {
    if versions == [] then 0
    else BitOr(Bitset(versions[..|versions| - 1]), VersionMask(versions[|versions| - 1]))
  }

  lemma {:induction false} OrBelow(a: nat, b: nat, k: nat)
    requires a < Pow2(k) && b < Pow2(k)
    ensures BitOr(a, b) < Pow2(k)
    decreases k
  {
    if k > 0 && a != 0 && b != 0 {
      OrBelow(a / 2, b / 2, k - 1);
    }
  }

  lemma {:induction false} Pow2Grows(k: nat, n: nat)
    requires k <= n
    ensures Pow2(k) <= Pow2(n)
    ensures k < n ==> 2 * Pow2(k) <= Pow2(n)
    decreases n
  {
    if k < n {
      Pow2Grows(k, n - 1);
    }
  }

  lemma MaskIsWord(ver: nat, width: nat)
    requires width == 64
    ensures VersionMask(ver) < Pow2(width)
  {
    Pow2Values();
    if ver % 32 < 31 {
      Pow2Grows(ver % 32, width);
    }
  }

  lemma {:induction false} BitsetIsWord(versions: seq<nat>)
    ensures Bitset(versions) < TWO64
  {
    Pow2Values();
    if versions != [] {
      BitsetIsWord(versions[..|versions| - 1]);
      MaskIsWord(versions[|versions| - 1], 64);
      OrBelow(Bitset(versions[..|versions| - 1]), VersionMask(versions[|versions| - 1]), 64);
    }
  }

  /** The bits that a version index sets. */
  predicate Covers(ver: nat, i: int) { if ver % 32 < 31 then i == ver % 32 else 31 <= i < 64 }

  lemma MaskBits(ver: nat, i: nat)
    ensures TestBit(VersionMask(ver), i) <==> Covers(ver, i)
  {
    if ver % 32 < 31 {
      TestBitOfPow2(ver % 32, i);
    } else {
      SignMaskBits(31, 33, i);
    }
  }

  lemma SignMaskBits(m: nat, n: nat, i: nat)
    requires m == 31 && n == 33
    ensures TestBit(TWO64 - 0x8000_0000, i) <==> 31 <= i < 64
  {
    Pow2Values();
    TestBitOfRun(m, n, i);
  }

  predicate Covered(versions: seq<nat>, i: int) { exists v :: v in versions && Covers(v, i) }

  /** The emitted bitset tests as true for what some index of the list covers. */
  lemma {:induction false} BitsetCovers(versions: seq<nat>, i: nat)
    ensures TestBit(Bitset(versions), i) <==> Covered(versions, i)
  {
    if versions == [] {
      TestBitOfZero(i);
    } else {
      var front, last := versions[..|versions| - 1], versions[|versions| - 1];
      assert versions == front + [last];
      assert last in versions && forall v :: v in versions <==> v in front || v == last;
      BitsetCovers(front, i);
      MaskBits(last, i);
      TestBitOr(Bitset(front), VersionMask(last), i);
    }
  }

  /** For indices up to 31 that is membership in the list, except that index 31 covers every bit
      from 31 on. */
  lemma BitsetIsMembership(versions: seq<nat>, i: nat)
    requires forall v :: v in versions ==> v <= 31
    ensures TestBit(Bitset(versions), i) <==> i in versions || (31 in versions && 31 <= i < 64)
  {
    BitsetCovers(versions, i);
    if i in versions && i < 31 {
      assert Covers(i, i);
    }
    if 31 in versions && 31 <= i < 64 {
      assert Covers(31, i);
    }
  }

  // ----- one record -----

  function EncodeBody(h: Hashes, sym: Symbol): Body
  {
    match sym.kind
    case Immediate(moduleIdx, offset) =>
      BitsetIsWord(sym.versions);
      ImmediateBody(Bitset(sym.versions), moduleIdx, offset)
    case Dynamic(target) => DynamicBody(h.elf(target), h.murmur(target), h.djb2(target))
    case DataBlock(pattern, inModule, boundary, fromVersion, section, offs) =>
      DataBlockBody(pattern, inModule % TWO8, boundary % TWO8, fromVersion % TWO8, section % TWO8, offs)
    case ReadAdrp(at, lo) => AdrpBody(h.murmur(at), lo)
    case Arithmetic(base, addend) => ArithmeticBody(h.murmur(base), addend)
  }

  function EncodeSymbol(h: Hashes, sym: Symbol): Entry
  {
    Entry(h.murmur(sym.name), if sym.useCache then 0 else 1, EncodeBody(h, sym))
  }

  function EncodeAll(h: Hashes, syms: seq<Symbol>): (r: seq<Entry>)
    ensures |r| == |syms| && forall k :: 0 <= k < |syms| ==> r[k] == EncodeSymbol(h, syms[k])
  {
    seq(|syms|, k requires 0 <= k < |syms| => EncodeSymbol(h, syms[k]))
  }

  /** The name an arithmetic or ADRP symbol builds on. */
  function SourceName(kind: Kind): Option<string>
  {
    match kind
    case ReadAdrp(at, _) => Some(at)
    case Arithmetic(base, _) => Some(base)
    case _ => None
  }

  predicate HasHash(h: Hashes, syms: seq<Symbol>, hash: U32)
  {
    exists k :: 0 <= k < |syms| && h.murmur(syms[k].name) == hash
  }

  /** The search for the source of `sym`; the compiler aborts without one. */
  predicate SourceExists(h: Hashes, syms: seq<Symbol>, sym: Symbol)
  {
    SourceName(sym.kind).Some? ==> HasHash(h, syms, h.murmur(SourceName(sym.kind).value))
  }

  // ----- the table -----

  predicate SortedByHash(h: Hashes, syms: seq<Symbol>)
  {
    forall i, j :: 0 <= i < j < |syms| ==> h.murmur(syms[i].name) <= h.murmur(syms[j].name)
  }

  /** The symbols of one hash, in table order. */
  function Group(h: Hashes, syms: seq<Symbol>, hash: U32): seq<Symbol>
  {
    if syms == [] then []
    else
      var last := syms[|syms| - 1];
      Group(h, syms[..|syms| - 1], hash) + if h.murmur(last.name) == hash then [last] else []
  }

  function GroupEntry(h: Hashes, group: seq<Symbol>, hash: U32): Entry
  {
    if |group| == 1 then EncodeSymbol(h, group[0]) else Entry(hash, 0, MultipleBody(EncodeAll(h, group)))
  }

  /** One record per hash among the first `n` symbols, at its first occurrence. */
  function TableUpTo(h: Hashes, syms: seq<Symbol>, n: nat): seq<Entry>
    requires n <= |syms|
  {
    if n == 0 then []
    else
      var hash := h.murmur(syms[n - 1].name);
      TableUpTo(h, syms, n - 1) +
      if HasHash(h, syms[..n - 1], hash) then [] else [GroupEntry(h, Group(h, syms, hash), hash)]
  }

  predicate SourcesExist(h: Hashes, syms: seq<Symbol>, n: nat)
    requires n <= |syms|
  {
    forall k :: 0 <= k < n ==> SourceExists(h, syms, syms[k])
  }

  function Table(h: Hashes, syms: seq<Symbol>): Option<seq<Entry>>
  {
    if SourcesExist(h, syms, |syms|) then Some(TableUpTo(h, syms, |syms|))
    else None
  }

  /** What is left of a group when the first `n` symbols are done: groups of several symbols are
      emptied at their first occurrence. */
  function GroupLeft(h: Hashes, syms: seq<Symbol>, hash: U32, n: nat): seq<Symbol>
    requires n <= |syms|
  {
    if HasHash(h, syms[..n], hash) && |Group(h, syms, hash)| > 1 then [] else Group(h, syms, hash)
  }

  lemma TableStep(h: Hashes, syms: seq<Symbol>, i: nat)
    requires i < |syms|
    ensures var hash := h.murmur(syms[i].name);
            && HasHash(h, syms, hash)
            && TableUpTo(h, syms, i + 1) == TableUpTo(h, syms, i) +
                 (if GroupLeft(h, syms, hash, i) == [] then [] else [GroupEntry(h, GroupLeft(h, syms, hash, i), hash)])
            && GroupLeft(h, syms, hash, i + 1) ==
                 (if |GroupLeft(h, syms, hash, i)| > 1 then [] else GroupLeft(h, syms, hash, i))
            && (|GroupLeft(h, syms, hash, i)| == 1 ==> GroupLeft(h, syms, hash, i) == [syms[i]])
    ensures forall x: U32 :: x != h.murmur(syms[i].name) ==> GroupLeft(h, syms, x, i + 1) == GroupLeft(h, syms, x, i)
  {
    var hash := h.murmur(syms[i].name);
    PrefixHash(h, syms, i);
    GroupHas(h, syms, i);
    if |Group(h, syms, hash)| == 1 {
      LoneGroup(h, syms, i);
    }
  }

  /** The group lists once the first `n` symbols are done. */
  ghost predicate GroupsLeft(h: Hashes, syms: seq<Symbol>, groups: map<U32, seq<Symbol>>, n: nat)
    requires n <= |syms|
  {
    && (forall hash :: hash in groups <==> HasHash(h, syms, hash))
    && (forall hash :: hash in groups ==> groups[hash] == GroupLeft(h, syms, hash, n))
  }

  lemma GroupsStep(h: Hashes, syms: seq<Symbol>, groups: map<U32, seq<Symbol>>, i: nat)
    requires i < |syms| && GroupsLeft(h, syms, groups, i)
    ensures h.murmur(syms[i].name) in groups
    ensures var hash := h.murmur(syms[i].name);
            GroupsLeft(h, syms, if |groups[hash]| > 1 then groups[hash := []] else groups, i + 1)
  {
    TableStep(h, syms, i);
  }

  /** What the loop adds for symbol `i`. */
  function Added(h: Hashes, sym: Symbol, group: seq<Symbol>): seq<Entry>
  {
    if |group| > 1 then [Entry(h.murmur(sym.name), 0, MultipleBody(EncodeAll(h, group)))]
    else if group != [] then [EncodeSymbol(h, sym)] else []
  }

  lemma OneRecord(h: Hashes, syms: seq<Symbol>, groups: map<U32, seq<Symbol>>, i: nat)
    requires i < |syms| && GroupsLeft(h, syms, groups, i)
    ensures h.murmur(syms[i].name) in groups
    ensures TableUpTo(h, syms, i + 1) == TableUpTo(h, syms, i) + Added(h, syms[i], groups[h.murmur(syms[i].name)])
    ensures var hash := h.murmur(syms[i].name);
            GroupsLeft(h, syms, if |groups[hash]| > 1 then groups[hash := []] else groups, i + 1)
  {
    TableStep(h, syms, i);
    GroupsStep(h, syms, groups, i);
  }

  /** Some symbol has the hash of `name`. */
  predicate Names(h: Hashes, syms: seq<Symbol>, name: string)
  {
    exists j :: 0 <= j < |syms| && h.murmur(syms[j].name) == h.murmur(name)
  }

  /** Everything a symbol is built on is there. */
  predicate Complete(h: Hashes, syms: seq<Symbol>)
  {
    forall s :: s in syms ==>
      match s.kind
      case ReadAdrp(at, _) => Names(h, syms, at)
      case Arithmetic(base, _) => Names(h, syms, base)
      case _ => true
  }

  /** The compiler gives a table if and only if that is so. */
  lemma CompilesExactlyWhen(h: Hashes, syms: seq<Symbol>)
    ensures Table(h, syms).Some? <==> Complete(h, syms)
  {
    if Complete(h, syms) {
      forall k | 0 <= k < |syms|
        ensures SourceExists(h, syms, syms[k])
      {
        assert syms[k] in syms;
      }
    }
    if Table(h, syms).Some? {
      forall s | s in syms && SourceName(s.kind).Some?
        ensures Names(h, syms, SourceName(s.kind).value)
      {
        var k :| 0 <= k < |syms| && syms[k] == s;
        assert SourceExists(h, syms, syms[k]);
      }
    }
  }

  /** `generateSymbolDb` on an already sorted list: groups by hash, then one record a group, or an
      abort exactly when a symbol is built on one that is not there. */
  method GenerateSymbolDb(h: Hashes, sorted: seq<Symbol>) returns (r: Option<seq<Entry>>)
    ensures r == Table(h, sorted)
    ensures r.Some? <==> Complete(h, sorted)
  {
    var groups := CollectGroups(h, sorted);
    var table: seq<Entry> := [];
    var i := 0;
    while i < |sorted|
      invariant i <= |sorted|
      invariant SourcesExist(h, sorted, i)
      invariant table == TableUpTo(h, sorted, i)
      invariant GroupsLeft(h, sorted, groups, i)
    {
      var sym := sorted[i];
      var hash := h.murmur(sym.name);
      if !SourceExists(h, sorted, sym) {
        CompilesExactlyWhen(h, sorted);
        return None;
      }
      OneRecord(h, sorted, groups, i);
      var group := groups[hash];
      if |group| > 1 {
        table := table + [Entry(hash, 0, MultipleBody(EncodeAll(h, group)))];
        groups := groups[hash := []];
      } else if group != [] {
        table := table + [EncodeSymbol(h, sym)];
      }
      i := i + 1;
    }
    CompilesExactlyWhen(h, sorted);
    r := Some(table);
  }

  /** The lists collected from the first `n` symbols. */
  ghost predicate Collected(h: Hashes, syms: seq<Symbol>, groups: map<U32, seq<Symbol>>, n: nat)
    requires n <= |syms|
  {
    && (forall hash :: hash in groups <==> HasHash(h, syms[..n], hash))
    && (forall hash: U32 :: Group(h, syms[..n], hash) == if hash in groups then groups[hash] else [])
  }

  lemma GroupOneMore(h: Hashes, syms: seq<Symbol>, i: nat, hash: U32)
    requires i < |syms|
    ensures Group(h, syms[..i + 1], hash)
         == Group(h, syms[..i], hash) + if h.murmur(syms[i].name) == hash then [syms[i]] else []
  {
    assert syms[..i + 1][..i] == syms[..i];
  }

  lemma CollectOneMore(h: Hashes, syms: seq<Symbol>, groups: map<U32, seq<Symbol>>, i: nat, hash: U32)
    requires i < |syms| && Collected(h, syms, groups, i) && hash == h.murmur(syms[i].name)
    ensures Collected(h, syms, groups[hash := (if hash in groups then groups[hash] else []) + [syms[i]]], i + 1)
  {
    PrefixHash(h, syms, i);
    forall x: U32
      ensures Group(h, syms[..i + 1], x) == Group(h, syms[..i], x) + if hash == x then [syms[i]] else []
    {
      GroupOneMore(h, syms, i, x);
    }
  }

  method CollectGroups(h: Hashes, syms: seq<Symbol>) returns (groups: map<U32, seq<Symbol>>)
    ensures forall hash :: hash in groups <==> HasHash(h, syms, hash)
    ensures forall hash :: hash in groups ==> groups[hash] == Group(h, syms, hash)
  {
    groups := map[];
    var i := 0;
    while i < |syms|
      invariant i <= |syms| && Collected(h, syms, groups, i)
    {
      var hash := h.murmur(syms[i].name);
      CollectOneMore(h, syms, groups, i, hash);
      groups := groups[hash := (if hash in groups then groups[hash] else []) + [syms[i]]];
      i := i + 1;
    }
    assert syms[..|syms|] == syms;
  }

  lemma PrefixHash(h: Hashes, syms: seq<Symbol>, i: nat)
    requires i < |syms|
    ensures forall hash ::
        HasHash(h, syms[..i + 1], hash) <==> HasHash(h, syms[..i], hash) || h.murmur(syms[i].name) == hash
  {
    var shorter, longer := syms[..i], syms[..i + 1];
    assert longer[i] == syms[i] && forall k :: 0 <= k < i ==> longer[k] == shorter[k];
    forall hash
      ensures HasHash(h, longer, hash) <==> HasHash(h, shorter, hash) || h.murmur(syms[i].name) == hash
    {
      if HasHash(h, shorter, hash) {
        var k :| 0 <= k < i && h.murmur(shorter[k].name) == hash;
        assert h.murmur(longer[k].name) == hash;
      }
      if HasHash(h, longer, hash) {
        var k :| 0 <= k <= i && h.murmur(longer[k].name) == hash;
        assert k < i ==> h.murmur(shorter[k].name) == hash;
      }
    }
  }

  /** Every symbol is in the group of its hash. */
  lemma {:induction false} GroupHas(h: Hashes, syms: seq<Symbol>, k: nat)
    requires k < |syms|
    ensures syms[k] in Group(h, syms, h.murmur(syms[k].name))
  {
    if k < |syms| - 1 {
      GroupHas(h, syms[..|syms| - 1], k);
    }
  }

  lemma {:induction false} GroupHasHash(h: Hashes, syms: seq<Symbol>, hash: U32)
    ensures forall k :: 0 <= k < |Group(h, syms, hash)| ==> h.murmur(Group(h, syms, hash)[k].name) == hash
    ensures Group(h, syms, hash) == [] <==> !HasHash(h, syms, hash)
  {
    if syms != [] {
      GroupHasHash(h, syms[..|syms| - 1], hash);
      PrefixHash(h, syms, |syms| - 1);
      assert syms[..|syms| - 1 + 1] == syms;
    }
  }

  lemma LoneGroup(h: Hashes, syms: seq<Symbol>, k: nat)
    requires k < |syms| && |Group(h, syms, h.murmur(syms[k].name))| == 1
    ensures Group(h, syms, h.murmur(syms[k].name)) == [syms[k]]
    ensures !HasHash(h, syms[..k], h.murmur(syms[k].name))
  {
    GroupHas(h, syms, k);
    if HasHash(h, syms[..k], h.murmur(syms[k].name)) {
      var j :| 0 <= j < k && h.murmur(syms[..k][j].name) == h.murmur(syms[k].name);
      TwoInGroup(h, syms, j, k);
    }
  }

  lemma {:induction false} TwoInGroup(h: Hashes, syms: seq<Symbol>, j: nat, k: nat)
    requires j < k < |syms| && h.murmur(syms[j].name) == h.murmur(syms[k].name)
    ensures |Group(h, syms, h.murmur(syms[k].name))| >= 2
  {
    if k < |syms| - 1 {
      TwoInGroup(h, syms[..|syms| - 1], j, k);
    } else {
      GroupHas(h, syms[..|syms| - 1], j);
    }
  }

  // ----- what the table holds -----

  ghost predicate StrictlyIncreasing(table: seq<Entry>)
  {
    forall i, j :: 0 <= i < j < |table| ==> table[i].hash < table[j].hash
  }

  lemma GroupEntryHash(h: Hashes, syms: seq<Symbol>, hash: U32)
    requires HasHash(h, syms, hash)
    ensures GroupEntry(h, Group(h, syms, hash), hash).hash == hash
  {
    GroupHasHash(h, syms, hash);
  }

  lemma {:induction false} TableHashFromPrefix(h: Hashes, syms: seq<Symbol>, n: nat, e: Entry)
    requires n <= |syms| && e in TableUpTo(h, syms, n)
    ensures exists k :: 0 <= k < n && h.murmur(syms[k].name) == e.hash
  {
    if e in TableUpTo(h, syms, n - 1) {
      TableHashFromPrefix(h, syms, n - 1, e);
    } else {
      var hash := h.murmur(syms[n - 1].name);
      assert HasHash(h, syms, hash);
      GroupEntryHash(h, syms, hash);
    }
  }

  /** The table has its hashes in strictly increasing order. */
  lemma {:induction false} TableIncreasing(h: Hashes, syms: seq<Symbol>, n: nat)
    requires n <= |syms| && SortedByHash(h, syms)
    ensures StrictlyIncreasing(TableUpTo(h, syms, n))
  {
    if n > 0 {
      var hash := h.murmur(syms[n - 1].name);
      TableIncreasing(h, syms, n - 1);
      if !HasHash(h, syms[..n - 1], hash) {
        assert HasHash(h, syms, hash);
        GroupEntryHash(h, syms, hash);
        NewHashIsAbove(h, syms, n, TableUpTo(h, syms, n - 1), hash);
      }
    }
  }

  lemma NewHashIsAbove(h: Hashes, syms: seq<Symbol>, n: nat, table: seq<Entry>, hash: U32)
    requires 0 < n <= |syms| && SortedByHash(h, syms) && table == TableUpTo(h, syms, n - 1)
    requires hash == h.murmur(syms[n - 1].name) && !HasHash(h, syms[..n - 1], hash)
    ensures forall i :: 0 <= i < |table| ==> table[i].hash < hash
  {
    forall i | 0 <= i < |table|
      ensures table[i].hash < hash
    {
      TableHashFromPrefix(h, syms, n - 1, table[i]);
      var k :| 0 <= k < n - 1 && h.murmur(syms[k].name) == table[i].hash;
      assert syms[..n - 1][k] == syms[k];
    }
  }

  /** Every hash of the symbols has its record: the whole group, alone or as candidate list. */
  lemma {:induction false} TableHasGroup(h: Hashes, syms: seq<Symbol>, n: nat, hash: U32)
    requires n <= |syms| && HasHash(h, syms[..n], hash)
    ensures GroupEntry(h, Group(h, syms, hash), hash) in TableUpTo(h, syms, n)
  {
    PrefixHash(h, syms, n - 1);
    if HasHash(h, syms[..n - 1], hash) {
      TableHasGroup(h, syms, n - 1, hash);
    }
  }

  lemma {:induction false} TableIsGroups(h: Hashes, syms: seq<Symbol>, n: nat, e: Entry)
    requires n <= |syms| && e in TableUpTo(h, syms, n)
    ensures HasHash(h, syms, e.hash) && e == GroupEntry(h, Group(h, syms, e.hash), e.hash)
  {
    var hash := h.murmur(syms[n - 1].name);
    if e in TableUpTo(h, syms, n - 1) {
      TableIsGroups(h, syms, n - 1, e);
    } else {
      assert HasHash(h, syms, hash);
      GroupEntryHash(h, syms, hash);
    }
  }

  /** The symbols a record stands for. */
  function Members(e: Entry): seq<Entry>
  {
    if e.body.MultipleBody? then e.body.candidates else [e]
  }

  function Flatten(table: seq<Entry>): seq<Entry>
  {
    if table == [] then [] else Flatten(table[..|table| - 1]) + Members(table[|table| - 1])
  }

  lemma MembersOfGroup(h: Hashes, syms: seq<Symbol>, hash: U32)
    requires HasHash(h, syms, hash)
    ensures Members(GroupEntry(h, Group(h, syms, hash), hash)) == EncodeAll(h, Group(h, syms, hash))
  {
    GroupHasHash(h, syms, hash);
  }

  /** In a sorted list the symbols of one hash are a contiguous run. */
  lemma {:induction false} GroupIsRun(h: Hashes, syms: seq<Symbol>, hash: U32, lo: nat, hi: nat)
    requires lo <= hi <= |syms|
    requires forall k :: 0 <= k < |syms| ==> (h.murmur(syms[k].name) == hash <==> lo <= k < hi)
    ensures Group(h, syms, hash) == syms[lo..hi]
  {
    if syms != [] {
      var n: nat := |syms| - 1;
      var front := syms[..n];
      if lo < hi == |syms| {
        GroupIsRun(h, front, hash, lo, n);
        assert syms[lo..hi] == syms[lo..n] + [syms[n]] && front[lo..n] == syms[lo..n];
      } else if hi == |syms| {
        GroupIsRun(h, front, hash, n, n);
        assert syms[lo..hi] == [] && front[n..n] == [];
      } else {
        GroupIsRun(h, front, hash, lo, hi);
        assert syms[lo..hi] == front[lo..hi];
      }
    }
  }

  /** First position of the run that position `n - 1` lies in. */
  function RunStart(h: Hashes, syms: seq<Symbol>, n: nat): (s: nat)
    requires 0 < n <= |syms|
    ensures s < n
    ensures forall k :: s <= k < n ==> h.murmur(syms[k].name) == h.murmur(syms[n - 1].name)
    ensures s > 0 ==> h.murmur(syms[s - 1].name) != h.murmur(syms[n - 1].name)
  {
    if n == 1 || h.murmur(syms[n - 2].name) != h.murmur(syms[n - 1].name) then n - 1
    else RunStart(h, syms, n - 1)
  }

  lemma FlattenAppend(table: seq<Entry>, e: Entry)
    ensures Flatten(table + [e]) == Flatten(table) + Members(e)
  {
    assert (table + [e])[..|table|] == table;
  }

  lemma EncodeAllSplit(h: Hashes, syms: seq<Symbol>, s: nat, n: nat)
    requires s <= n <= |syms|
    ensures EncodeAll(h, syms[..n]) == EncodeAll(h, syms[..s]) + EncodeAll(h, syms[s..n])
  {
  }

  /** Nothing is lost, duplicated or reordered: read record by record, the table up to the end of
      a run is the sorted symbols up to there. */
  lemma {:induction false} FlattenUpTo(h: Hashes, syms: seq<Symbol>, n: nat)
    requires n <= |syms| && SortedByHash(h, syms)
    requires 0 < n < |syms| ==> h.murmur(syms[n].name) != h.murmur(syms[n - 1].name)
    ensures Flatten(TableUpTo(h, syms, n)) == EncodeAll(h, syms[..n])
    decreases n
  {
    if n > 0 {
      var s := RunStart(h, syms, n);
      FlattenUpTo(h, syms, s);
      RunAddsOneRecord(h, syms, s, n);
      RunMembers(h, syms, s, n);
      FlattenAppend(TableUpTo(h, syms, s), RunEntry(h, syms, s));
      EncodeAllSplit(h, syms, s, n);
    }
  }

  function RunEntry(h: Hashes, syms: seq<Symbol>, s: nat): Entry
    requires s < |syms|
  {
    var hash := h.murmur(syms[s].name);
    GroupEntry(h, Group(h, syms, hash), hash)
  }

  lemma RunMembers(h: Hashes, syms: seq<Symbol>, s: nat, n: nat)
    requires s < n <= |syms| && SortedByHash(h, syms)
    requires forall k :: s <= k < n ==> h.murmur(syms[k].name) == h.murmur(syms[s].name)
    requires s > 0 ==> h.murmur(syms[s - 1].name) != h.murmur(syms[s].name)
    requires n < |syms| ==> h.murmur(syms[n].name) != h.murmur(syms[s].name)
    ensures Members(RunEntry(h, syms, s)) == EncodeAll(h, syms[s..n])
  {
    var hash := h.murmur(syms[s].name);
    assert HasHash(h, syms, hash);
    MembersOfGroup(h, syms, hash);
    forall k | 0 <= k < |syms|
      ensures h.murmur(syms[k].name) == hash <==> s <= k < n
    {
      if k < s {
        assert h.murmur(syms[k].name) <= h.murmur(syms[s - 1].name) <= h.murmur(syms[s].name);
      } else if k >= n {
        assert h.murmur(syms[s].name) <= h.murmur(syms[n].name) <= h.murmur(syms[k].name);
      }
    }
    GroupIsRun(h, syms, hash, s, n);
  }

  lemma {:induction false} RunAddsOneRecord(h: Hashes, syms: seq<Symbol>, s: nat, n: nat)
    requires s < n <= |syms| && SortedByHash(h, syms)
    requires forall k :: s <= k < n ==> h.murmur(syms[k].name) == h.murmur(syms[s].name)
    requires s > 0 ==> h.murmur(syms[s - 1].name) != h.murmur(syms[s].name)
    ensures TableUpTo(h, syms, n) == TableUpTo(h, syms, s) + [RunEntry(h, syms, s)]
    decreases n
  {
    if n == s + 1 {
      FirstAdds(h, syms, s);
    } else {
      RunAddsOneRecord(h, syms, s, n - 1);
      SeenAddsNothing(h, syms, s, n);
    }
  }

  lemma FirstAdds(h: Hashes, syms: seq<Symbol>, s: nat)
    requires s < |syms| && SortedByHash(h, syms)
    requires s > 0 ==> h.murmur(syms[s - 1].name) != h.murmur(syms[s].name)
    ensures TableUpTo(h, syms, s + 1) == TableUpTo(h, syms, s) + [RunEntry(h, syms, s)]
  {
    FirstOfItsHash(h, syms, s);
  }

  lemma SeenAddsNothing(h: Hashes, syms: seq<Symbol>, s: nat, n: nat)
    requires s < n - 1 < |syms| && h.murmur(syms[n - 1].name) == h.murmur(syms[s].name)
    ensures TableUpTo(h, syms, n) == TableUpTo(h, syms, n - 1)
  {
    assert syms[..n - 1][s] == syms[s];
  }

  lemma FirstOfItsHash(h: Hashes, syms: seq<Symbol>, s: nat)
    requires s < |syms| && SortedByHash(h, syms)
    requires s > 0 ==> h.murmur(syms[s - 1].name) != h.murmur(syms[s].name)
    ensures !HasHash(h, syms[..s], h.murmur(syms[s].name))
  {
    forall k | 0 <= k < s
      ensures h.murmur(syms[..s][k].name) != h.murmur(syms[s].name)
    {
      assert h.murmur(syms[k].name) <= h.murmur(syms[s - 1].name);
    }
  }

  /** The whole table, read record by record, is the sorted symbols. */
  lemma TableLosesNothing(h: Hashes, syms: seq<Symbol>)
    requires SortedByHash(h, syms)
    ensures Flatten(TableUpTo(h, syms, |syms|)) == EncodeAll(h, syms)
  {
    FlattenUpTo(h, syms, |syms|);
    assert syms[..|syms|] == syms;
  }

  lemma PullOut<T>(s: seq<T>, j: nat)
    requires j < |s|
    ensures multiset(s) == multiset(s[..j] + s[j + 1..]) + multiset{s[j]}
  {
    assert s == s[..j] + [s[j]] + s[j + 1..];
  }

  lemma EncodeWithout(h: Hashes, s: seq<Symbol>, j: nat)
    requires j < |s|
    ensures EncodeAll(h, s)[..j] + EncodeAll(h, s)[j + 1..] == EncodeAll(h, s[..j] + s[j + 1..])
  {
  }

  function Without<T>(s: seq<T>, j: nat): seq<T>
    requires j < |s|
  {
    s[..j] + s[j + 1..]
  }

  lemma WithoutPermuted<T>(a: seq<T>, b: seq<T>, i: nat, j: nat)
    requires multiset(a) == multiset(b) && i < |a| && j < |b| && a[i] == b[j]
    ensures multiset(Without(a, i)) == multiset(Without(b, j))
  {
    PullOut(a, i);
    PullOut(b, j);
    assert multiset(Without(a, i)) == multiset(a) - multiset{a[i]};
  }

  lemma EncodePulledOut(h: Hashes, s: seq<Symbol>, j: nat)
    requires j < |s|
    ensures multiset(EncodeAll(h, s)) == multiset(EncodeAll(h, Without(s, j))) + multiset{EncodeSymbol(h, s[j])}
  {
    PullOut(EncodeAll(h, s), j);
    EncodeWithout(h, s, j);
  }

  lemma {:induction false} EncodePermuted(h: Hashes, a: seq<Symbol>, b: seq<Symbol>)
    requires multiset(a) == multiset(b)
    ensures multiset(EncodeAll(h, a)) == multiset(EncodeAll(h, b))
    decreases |a|
  {
    if a == [] {
      assert |b| == |multiset(b)| == |multiset(a)| == 0;
    } else {
      assert a[0] in multiset(b);
      var j :| 0 <= j < |b| && b[j] == a[0];
      WithoutPermuted(a, b, 0, j);
      EncodePermuted(h, Without(a, 0), Without(b, j));
      EncodePulledOut(h, a, 0);
      EncodePulledOut(h, b, j);
    }
  }

  /** Whatever order the sort gives symbols of one hash, the table holds every source symbol
      exactly as often as the source does. */
  lemma DatabaseIsComplete(h: Hashes, symbols: seq<Symbol>, sorted: seq<Symbol>)
    requires multiset(sorted) == multiset(symbols) && SortedByHash(h, sorted)
    ensures multiset(Flatten(TableUpTo(h, sorted, |sorted|))) == multiset(EncodeAll(h, symbols))
  {
    TableLosesNothing(h, sorted);
    EncodePermuted(h, sorted, symbols);
  }

  // ----- finding a record -----

  /** The record with a hash, if any. */
  function Find(table: seq<Entry>, hash: U32): (r: Option<Entry>)
    ensures r.Some? ==> r.value in table && r.value.hash == hash
    ensures r.None? ==> forall k :: 0 <= k < |table| ==> table[k].hash != hash
  {
    if table == [] then None
    else if table[|table| - 1].hash == hash then Some(table[|table| - 1])
    else Find(table[..|table| - 1], hash)
  }

  /** `util::binarySearch` over the table: an index, or -1. */
  method BinarySearch(table: seq<Entry>, hash: U32) returns (idx: int)
    requires StrictlyIncreasing(table)
    ensures idx == -1 <==> Find(table, hash).None?
    ensures idx != -1 ==> 0 <= idx < |table| && Find(table, hash) == Some(table[idx])
  {
    var low, high := 0, |table| - 1;
    while low <= high
      invariant 0 <= low <= high + 1 <= |table|
      invariant forall k :: 0 <= k < low || high < k < |table| ==> table[k].hash != hash
    {
      var mid := (low + high) / 2;
      if table[mid].hash == hash {
        UniqueHash(table, hash, mid);
        return mid;
      }
      if table[mid].hash < hash {
        low := mid + 1;
      } else {
        high := mid - 1;
      }
    }
    idx := -1;
  }

  lemma UniqueHash(table: seq<Entry>, hash: U32, k: nat)
    requires StrictlyIncreasing(table) && k < |table| && table[k].hash == hash
    ensures Find(table, hash) == Some(table[k])
  {
    var e := Find(table, hash).value;
    var j :| 0 <= j < |table| && table[j] == e;
    assert j == k;
  }

  /** Looking a hash up in the compiled table hits exactly when some symbol has it, and then
      gives that symbol, or the candidate list of all symbols with it in table order. */
  lemma LookupGivesGroup(h: Hashes, syms: seq<Symbol>, hash: U32)
    requires SortedByHash(h, syms)
    ensures Find(TableUpTo(h, syms, |syms|), hash)
         == if HasHash(h, syms, hash) then Some(GroupEntry(h, Group(h, syms, hash), hash)) else None
  {
    var table := TableUpTo(h, syms, |syms|);
    var found := Find(table, hash);
    assert syms[..|syms|] == syms;
    if found.Some? {
      TableIsGroups(h, syms, |syms|, found.value);
    }
    if HasHash(h, syms, hash) {
      TableHasGroup(h, syms, |syms|, hash);
      GroupEntryHash(h, syms, hash);
    }
  }

  /** The record of a symbol starts with an empty cache, or one that is switched off, as the symbol
      says: on its own, or among the candidates of its name, whose list starts empty. */
  predicate HasRecord(h: Hashes, e: Entry, s: Symbol)
  {
    && e.hash == h.murmur(s.name)
    && if e.body.MultipleBody? then
         && e.cache == 0
         && exists c :: c in e.body.candidates && c.hash == e.hash && c.cache == if s.useCache then 0 else 1
       else e.cache == if s.useCache then 0 else 1
  }

  lemma CachesStart(h: Hashes, syms: seq<Symbol>, k: nat)
    requires SortedByHash(h, syms) && k < |syms|
    ensures Find(TableUpTo(h, syms, |syms|), h.murmur(syms[k].name)).Some?
    ensures HasRecord(h, Find(TableUpTo(h, syms, |syms|), h.murmur(syms[k].name)).value, syms[k])
  {
    var hash := h.murmur(syms[k].name);
    var group := Group(h, syms, hash);
    LookupGivesGroup(h, syms, hash);
    GroupHas(h, syms, k);
    var j :| 0 <= j < |group| && group[j] == syms[k];
    GroupHasRecord(h, group, hash, j);
  }

  lemma GroupHasRecord(h: Hashes, group: seq<Symbol>, hash: U32, j: nat)
    requires j < |group| && h.murmur(group[j].name) == hash
    ensures HasRecord(h, GroupEntry(h, group, hash), group[j])
  {
    if |group| != 1 {
      var all := EncodeAll(h, group);
      assert all[j] == EncodeSymbol(h, group[j]) && all[j] in all;
    }
  }
}
