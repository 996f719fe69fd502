/** Symbol lookup in a loaded module (hakkun/src/rtld/RoModule.cpp): the GNU bloom, bucket and
    chain tables and the System V bucket and chain table, against a scan of the symbol table. */
module ElfLookup {
  import opened Hashing
  import opened Options
  import opened Words

  const SHN_COMMON: nat := 0xFFF2

  datatype Sym = Sym(name: string, shndx: U16, value: U64, weak: bool, hidden: bool)

  /** A module as `Initialize` leaves it: its symbols and the words of the hash table it uses. */
  datatype Module = Module(base: U64, symbols: seq<Sym>, isGnuHash: bool, gnuHash: seq<U32>, hashTable: seq<U32>)

  /** What a lookup compares: the name itself or its murmur hash. */
  datatype Key = ByName(name: string) | ByMurmur(hash: U32)

  predicate KeyMatches(h: Hashes, key: Key, name: string)
  {
    match key
    case ByName(wanted) => wanted == name
    case ByMurmur(hash) => h.murmur(name) == hash
  }

  predicate Defined(sym: Sym) { sym.shndx != 0 && sym.shndx != SHN_COMMON }

  predicate Hit(h: Hashes, m: Module, key: Key, i: nat)
    requires i < |m.symbols|
  {
    Defined(m.symbols[i]) && KeyMatches(h, key, m.symbols[i].name)
  }

  /** The first definition from index `i` on. */
  function Scan(h: Hashes, m: Module, key: Key, i: nat): (r: Option<nat>)
    requires i <= |m.symbols|
    ensures r.Some? ==> i <= r.value < |m.symbols| && Hit(h, m, key, r.value)
    ensures forall k :: i <= k < (if r.Some? then r.value else |m.symbols|) ==> !Hit(h, m, key, k)
    decreases |m.symbols| - i
  {
    if i == |m.symbols| then None else if Hit(h, m, key, i) then Some(i) else Scan(h, m, key, i + 1)
  }

  lemma {:induction false} ScanIs(h: Hashes, m: Module, key: Key, i: nat, at: nat)
    requires i <= at < |m.symbols| && Hit(h, m, key, at)
    requires forall k :: i <= k < at ==> !Hit(h, m, key, k)
    ensures Scan(h, m, key, i) == Some(at)
  {
    var r := Scan(h, m, key, i);
    assert r.Some? && !(r.value < at) && !(at < r.value);
  }

  // ----- bit tests on hashes -----

  function BitXor(a: nat, b: nat): nat
    decreases a + b
  {
    if a == 0 && b == 0 then 0 else (if a % 2 != b % 2 then 1 else 0) + 2 * BitXor(a / 2, b / 2)
  }

  lemma {:induction false} XorIsZero(a: nat, b: nat)
    ensures BitXor(a, b) == 0 <==> a == b
    decreases a + b
  {
    if a != 0 || b != 0 {
      XorIsZero(a / 2, b / 2);
    }
  }

  /** `(a ^ b) < 2` ignores the lowest bit. */
  lemma XorBelowTwo(a: nat, b: nat)
    ensures BitXor(a, b) < 2 <==> a / 2 == b / 2
  {
    XorIsZero(a / 2, b / 2);
  }

  ghost predicate Covers(x: nat, mask: nat) { forall i: nat :: TestBit(mask, i) ==> TestBit(x, i) }

  lemma CoversSplits(x: nat, mask: nat)
    ensures Covers(x, mask) <==> (mask % 2 == 1 ==> x % 2 == 1) && Covers(x / 2, mask / 2)
  {
    if Covers(x, mask) {
      assert TestBit(mask, 0) ==> TestBit(x, 0);
      forall i: nat
        ensures TestBit(mask / 2, i) ==> TestBit(x / 2, i)
      {
        assert TestBit(mask, i + 1) ==> TestBit(x, i + 1);
      }
    }
    if (mask % 2 == 1 ==> x % 2 == 1) && Covers(x / 2, mask / 2) {
      forall i: nat
        ensures TestBit(mask, i) ==> TestBit(x, i)
      {
        if i > 0 {
          assert TestBit(mask / 2, i - 1) ==> TestBit(x / 2, i - 1);
        }
      }
    }
  }

  /** `(x & mask) == mask` says that `x` has every bit of the mask. */
  lemma {:induction false} AndCovers(x: nat, mask: nat)
    ensures BitAnd(x, mask) == mask <==> Covers(x, mask)
    decreases mask
  {
    if mask == 0 {
      forall i: nat
        ensures !TestBit(mask, i)
      {
        TestBitOfZero(i);
      }
    } else {
      AndCovers(x / 2, mask / 2);
      CoversSplits(x, mask);
    }
  }

  /** The mask of two bits. */
  lemma AndTwoBits(x: nat, bit1: nat, bit2: nat)
    ensures BitAnd(x, BitOr(Pow2(bit1), Pow2(bit2))) == BitOr(Pow2(bit1), Pow2(bit2))
       <==> TestBit(x, bit1) && TestBit(x, bit2)
  {
    var mask := BitOr(Pow2(bit1), Pow2(bit2));
    AndCovers(x, mask);
    forall i: nat
      ensures TestBit(mask, i) <==> i == bit1 || i == bit2
    {
      TestBitOr(Pow2(bit1), Pow2(bit2), i);
      TestBitOfPow2(bit1, i);
      TestBitOfPow2(bit2, i);
    }
  }

  // ----- the GNU table -----

  /** Header, bloom words (two 32-bit words each), buckets, then a word per hashed symbol. */
  ghost predicate GnuShape(m: Module)
  {
    && 4 <= |m.gnuHash| < TWO32 && Buckets(m) > 0 && SymOffset(m) <= |m.symbols| && IsPow2(MaskWords(m))
    && |m.gnuHash| == 4 + 2 * MaskWords(m) + Buckets(m) + (|m.symbols| - SymOffset(m))
  }

  function Buckets(m: Module): nat
    requires |m.gnuHash| >= 4
  {
    m.gnuHash[0]
  }

  function SymOffset(m: Module): nat
    requires |m.gnuHash| >= 4
  {
    m.gnuHash[1]
  }

  function MaskWords(m: Module): nat
    requires |m.gnuHash| >= 4
  {
    m.gnuHash[2]
  }

  predicate Hashed(m: Module, i: nat)
    requires |m.gnuHash| >= 4
  {
    SymOffset(m) <= i < |m.symbols|
  }

  function BloomWord(m: Module, w: nat): nat
    requires GnuShape(m) && w < MaskWords(m)
  {
    m.gnuHash[4 + 2 * w] + TWO32 * m.gnuHash[5 + 2 * w]
  }

  function BucketWord(m: Module, b: nat): nat
    requires GnuShape(m) && b < Buckets(m)
  {
    m.gnuHash[4 + 2 * MaskWords(m) + b]
  }

  function ChainWord(m: Module, i: nat): nat
    requires GnuShape(m) && Hashed(m, i)
  {
    m.gnuHash[4 + (i + Buckets(m) + 2 * MaskWords(m) - SymOffset(m))]
  }

  function WordIdx(m: Module, hash: U32): (w: nat)
    requires GnuShape(m)
    ensures w < MaskWords(m)
  {
    AndAtMost(hash / 64, MaskWords(m) - 1);
    BitAnd(hash / 64, MaskWords(m) - 1)
  }

  /** Both bits of a hash in its bloom word. */
  predicate PassesBloom(m: Module, hash: U32)
    requires GnuShape(m)
  {
    var word := BloomWord(m, WordIdx(m, hash));
    TestBit(word, hash % 64) && TestBit(word, hash / Pow2(m.gnuHash[3] % 32) % 64)
  }

  function BucketOf(h: Hashes, m: Module, i: nat): (b: nat)
    requires GnuShape(m) && Hashed(m, i)
    ensures b < Buckets(m)
  {
    h.djb2(m.symbols[i].name) % Buckets(m)
  }

  /** What a linker writes: hashed symbols grouped by bucket, the low bit of a chain word marking
      the last of its bucket, and no symbol missing from the bloom filter. */
  ghost predicate WellFormedGnu(h: Hashes, m: Module)
  {
    && GnuShape(m)
    && (forall i: nat :: Hashed(m, i) ==> PassesBloom(m, h.djb2(m.symbols[i].name)))
    && (forall i: nat :: Hashed(m, i) ==> ChainWord(m, i) / 2 == h.djb2(m.symbols[i].name) / 2)
    && (forall i: nat :: Hashed(m, i) ==>
          (ChainWord(m, i) % 2 == 1 <==> i + 1 == |m.symbols| || BucketOf(h, m, i + 1) != BucketOf(h, m, i)))
    && (forall i: nat, j: nat, k: nat ::
          Hashed(m, i) && i <= j <= k && Hashed(m, k) && BucketOf(h, m, i) == BucketOf(h, m, k) ==>
          BucketOf(h, m, j) == BucketOf(h, m, i))
    && (forall b: nat :: b < Buckets(m) ==> IsBucketStart(h, m, b, BucketWord(m, b)))
  }

  ghost predicate IsBucketStart(h: Hashes, m: Module, b: nat, start: nat)
    requires GnuShape(m)
  {
    if start < SymOffset(m) then forall i: nat :: Hashed(m, i) ==> BucketOf(h, m, i) != b
    else
      && start < |m.symbols| && BucketOf(h, m, start) == b
      && forall i: nat :: SymOffset(m) <= i < start ==> BucketOf(h, m, i) != b
  }

  /** What the walk accepts: the right bucket, 31 equal hash bits, a definition, and the key. */
  ghost predicate ChainHit(h: Hashes, m: Module, hash: U32, key: Key, i: nat)
    requires GnuShape(m) && Hashed(m, i)
  {
    Hit(h, m, key, i) && BucketOf(h, m, i) == hash % Buckets(m) && h.djb2(m.symbols[i].name) / 2 == hash / 2
  }

  ghost predicate IsFirstChainHit(h: Hashes, m: Module, hash: U32, key: Key, r: Option<nat>)
    requires GnuShape(m)
  {
    match r
    case None => forall i: nat :: Hashed(m, i) ==> !ChainHit(h, m, hash, key, i)
    case Some(at) =>
      && Hashed(m, at) && ChainHit(h, m, hash, key, at)
      && forall i: nat :: SymOffset(m) <= i < at ==> !ChainHit(h, m, hash, key, i)
  }

  /** The common walk of `GetSymbolByNameGnu` and `GetSymbolByHashesGnu`. */
  method WalkGnu(h: Hashes, m: Module, hash: U32, key: Key) returns (r: Option<nat>)
    requires WellFormedGnu(h, m)
    ensures !PassesBloom(m, hash) ==> r == None
    ensures PassesBloom(m, hash) ==> IsFirstChainHit(h, m, hash, key, r)
  {
    var passes := TestBloom(m, hash);
    if !passes {
      return None;
    }
    var bucket := BucketIndex(hash, Buckets(m));
    var symIdx := BucketWord(m, bucket);
    assert IsBucketStart(h, m, bucket, symIdx);
    if symIdx < SymOffset(m) {
      return None;
    }
    r := WalkChain(h, m, hash, key, symIdx);
  }

  method BucketIndex(hash: U32, nbuckets: nat) returns (bucket: nat)
    requires nbuckets > 0
    ensures bucket == hash % nbuckets
  {
    var bucketIdx := if nbuckets != 0 then hash / nbuckets else 0;
    DivModUnique(hash, nbuckets, bucketIdx, hash % nbuckets);
    bucket := hash - bucketIdx * nbuckets;
  }

  method TestBloom(m: Module, hash: U32) returns (passes: bool)
    requires GnuShape(m)
    ensures passes <==> PassesBloom(m, hash)
  {
    var bit1 := hash % 64;
    var bit2 := hash / Pow2(m.gnuHash[3] % 32) % 64;
    var bloomWord := BloomWord(m, WordIdx(m, hash));
    var bloomMask := BitOr(Pow2(bit1), Pow2(bit2));
    AndTwoBits(bloomWord, bit1, bit2);
    passes := BitAnd(bloomWord, bloomMask) == bloomMask;
  }

  method WalkChain(h: Hashes, m: Module, hash: U32, key: Key, start: nat) returns (r: Option<nat>)
    requires WellFormedGnu(h, m) && Hashed(m, start) && IsBucketStart(h, m, hash % Buckets(m), start)
    ensures IsFirstChainHit(h, m, hash, key, r)
  {
    var symIdx := start;
    while true
      invariant Hashed(m, symIdx) && BucketOf(h, m, symIdx) == hash % Buckets(m)
      invariant NoHitBefore(h, m, hash, key, symIdx)
      decreases |m.symbols| - symIdx
    {
      var chainhash := ChainWord(m, symIdx);
      ChainTest(h, m, hash, key, symIdx);
      if BitXor(chainhash, hash) < 2 && Hit(h, m, key, symIdx) {
        return Some(symIdx);
      }
      if chainhash % 2 == 1 {
        WalkEnds(h, m, hash, key, symIdx);
        return None;
      }
      WalkGoesOn(h, m, hash, key, symIdx);
      symIdx := symIdx + 1;
    }
  }

  lemma ChainTest(h: Hashes, m: Module, hash: U32, key: Key, i: nat)
    requires WellFormedGnu(h, m) && Hashed(m, i) && BucketOf(h, m, i) == hash % Buckets(m)
    ensures ChainHit(h, m, hash, key, i) <==> BitXor(ChainWord(m, i), hash) < 2 && Hit(h, m, key, i)
  {
    XorBelowTwo(ChainWord(m, i), hash);
  }

  ghost predicate NoHitBefore(h: Hashes, m: Module, hash: U32, key: Key, n: nat)
    requires GnuShape(m) && n <= |m.symbols|
  {
    forall i: nat :: SymOffset(m) <= i < n ==> !ChainHit(h, m, hash, key, i)
  }

  lemma WalkGoesOn(h: Hashes, m: Module, hash: U32, key: Key, i: nat)
    requires WellFormedGnu(h, m) && Hashed(m, i) && ChainWord(m, i) % 2 != 1
    requires NoHitBefore(h, m, hash, key, i) && !ChainHit(h, m, hash, key, i)
    ensures i + 1 < |m.symbols| && BucketOf(h, m, i + 1) == BucketOf(h, m, i)
    ensures NoHitBefore(h, m, hash, key, i + 1)
  {
  }

  lemma WalkEnds(h: Hashes, m: Module, hash: U32, key: Key, last: nat)
    requires WellFormedGnu(h, m) && Hashed(m, last) && ChainWord(m, last) % 2 == 1
    requires BucketOf(h, m, last) == hash % Buckets(m)
    requires NoHitBefore(h, m, hash, key, last) && !ChainHit(h, m, hash, key, last)
    ensures IsFirstChainHit(h, m, hash, key, None)
  {
    BucketEnds(h, m, last);
  }

  lemma BucketEnds(h: Hashes, m: Module, last: nat)
    requires WellFormedGnu(h, m) && Hashed(m, last) && ChainWord(m, last) % 2 == 1
    ensures forall i: nat :: last < i < |m.symbols| ==> BucketOf(h, m, i) != BucketOf(h, m, last)
  {
    assert last + 1 < |m.symbols| ==> BucketOf(h, m, last + 1) != BucketOf(h, m, last);
  }

  /** The keys a caller looks up with: a name, or the murmur hash of a name that no other name of
      the module shares. */
  ghost predicate Identifies(h: Hashes, m: Module, key: Key, name: string)
  {
    match key
    case ByName(wanted) => wanted == name
    case ByMurmur(hash) =>
      && hash == h.murmur(name)
      && forall i :: 0 <= i < |m.symbols| && h.murmur(m.symbols[i].name) == hash ==> m.symbols[i].name == name
  }

  lemma IdentifiedHits(h: Hashes, m: Module, key: Key, name: string, i: nat)
    requires Identifies(h, m, key, name) && i < |m.symbols|
    ensures Hit(h, m, key, i) <==> Hit(h, m, ByName(name), i)
  {
  }

  /** The GNU lookup gives the least-indexed hashed definition of the name, and nothing exactly
      when a scan of the hashed symbols finds none. */
  lemma GnuIsScan(h: Hashes, m: Module, name: string, key: Key, r: Option<nat>)
    requires WellFormedGnu(h, m) && Identifies(h, m, key, name)
    requires if PassesBloom(m, h.djb2(name)) then IsFirstChainHit(h, m, h.djb2(name), key, r) else r == None
    ensures r == Scan(h, m, ByName(name), SymOffset(m))
  {
    forall i: nat | Hashed(m, i)
      ensures Hit(h, m, ByName(name), i) ==> ChainHit(h, m, h.djb2(name), key, i) && PassesBloom(m, h.djb2(name))
      ensures ChainHit(h, m, h.djb2(name), key, i) ==> Hit(h, m, ByName(name), i)
    {
      IdentifiedHits(h, m, key, name, i);
    }
    if r.Some? {
      ScanIs(h, m, ByName(name), SymOffset(m), r.value);
    }
  }

  // ----- the System V table -----

  /** Section "Hash Table" of the System V gABI, chapter 5: two counts, buckets, a chain word per symbol. */
  ghost predicate ElfShape(m: Module)
  {
    && 2 <= |m.hashTable| && m.hashTable[0] > 0 && m.hashTable[1] == |m.symbols|
    && |m.hashTable| == 2 + m.hashTable[0] + |m.symbols|
  }

  function ElfBucket(m: Module, hash: nat): nat
    requires ElfShape(m)
  {
    m.hashTable[2 + hash % m.hashTable[0]]
  }

  function ElfChain(m: Module, i: nat): nat
    requires ElfShape(m) && i < |m.symbols|
  {
    m.hashTable[2 + m.hashTable[0] + i]
  }

  /** Following the chain words from `start` visits `path` and ends at 0. */
  ghost predicate IsChain(m: Module, start: nat, path: seq<int>)
    requires ElfShape(m)
    decreases |path|
  {
    if path == [] then start == 0
    else path[0] == start && 0 < start < |m.symbols| && IsChain(m, ElfChain(m, start), path[1..])
  }

  /** The chain of a hash is finite and visits every symbol of its bucket. */
  ghost predicate Reaches(h: Hashes, m: Module, hash: nat, path: seq<int>)
    requires ElfShape(m)
  {
    && IsChain(m, ElfBucket(m, hash), path)
    && forall i: nat :: 0 < i < |m.symbols| && h.elf(m.symbols[i].name) % m.hashTable[0] == hash % m.hashTable[0] ==>
         i in path
  }

  ghost predicate ChainReaches(h: Hashes, m: Module, hash: nat)
    requires ElfShape(m)
  {
    exists path :: Reaches(h, m, hash, path)
  }

  ghost predicate WellFormedElf(h: Hashes, m: Module)
  {
    ElfShape(m) && forall hash: nat :: ChainReaches(h, m, hash)
  }

  ghost predicate InTable(m: Module, path: seq<int>) { forall k :: 0 <= k < |path| ==> 0 < path[k] < |m.symbols| }

  ghost function PathOf(h: Hashes, m: Module, hash: nat): (path: seq<int>)
    requires WellFormedElf(h, m)
    ensures Reaches(h, m, hash, path)
  {
    assert ChainReaches(h, m, hash);
    var path :| Reaches(h, m, hash, path);
    path
  }

  ghost predicate IsFirstOnPath(h: Hashes, m: Module, key: Key, path: seq<int>, r: Option<nat>)
    requires InTable(m, path)
    decreases |path|
  {
    if path == [] then r == None
    else if Hit(h, m, key, path[0]) then r == Some(path[0])
    else IsFirstOnPath(h, m, key, path[1..], r)
  }

  lemma {:induction false} ChainInTable(m: Module, start: nat, path: seq<int>)
    requires ElfShape(m) && IsChain(m, start, path)
    ensures InTable(m, path)
    decreases |path|
  {
    if path != [] {
      ChainInTable(m, ElfChain(m, start), path[1..]);
    }
  }

  /** The common walk of `GetSymbolByNameElf` and `GetSymbolByHashesElf`. */
  method WalkElf(h: Hashes, m: Module, hash: U64, key: Key) returns (r: Option<nat>)
    requires WellFormedElf(h, m)
    ensures InTable(m, PathOf(h, m, hash))
    ensures IsFirstOnPath(h, m, key, PathOf(h, m, hash), r)
  {
    ghost var path := PathOf(h, m, hash);
    ghost var rest := path;
    var i := ElfBucket(m, hash);
    ChainInTable(m, i, path);
    while i != 0
      invariant IsChain(m, i, rest) && InTable(m, rest)
      invariant forall r :: IsFirstOnPath(h, m, key, rest, r) <==> IsFirstOnPath(h, m, key, path, r)
      decreases |rest|
    {
      if Hit(h, m, key, i) {
        return Some(i);
      }
      i := ElfChain(m, i);
      rest := rest[1..];
    }
    r := None;
  }

  lemma {:induction false} FirstOnPath(h: Hashes, m: Module, key: Key, path: seq<int>, r: Option<nat>)
    requires InTable(m, path)
    requires IsFirstOnPath(h, m, key, path, r)
    ensures match r
            case Some(at) => at in path && Hit(h, m, key, at)
            case None => forall k :: 0 <= k < |path| ==> !Hit(h, m, key, path[k])
    decreases |path|
  {
    if path != [] && !Hit(h, m, key, path[0]) {
      FirstOnPath(h, m, key, path[1..], r);
    }
  }

  predicate SameDefinition(a: Sym, b: Sym) { Defined(a) && Defined(b) && a.name == b.name }

  /** No name is defined twice, and the null symbol is not a definition. */
  ghost predicate DefinedOnce(m: Module)
  {
    && (|m.symbols| > 0 ==> !Defined(m.symbols[0]))
    && forall i, j :: 0 <= i < |m.symbols| && 0 <= j < |m.symbols| && SameDefinition(m.symbols[i], m.symbols[j]) ==>
         i == j
  }

  /** The System V lookup gives the definition of the name, and nothing exactly when a scan of the
      whole symbol table finds none. */
  lemma ElfIsScan(h: Hashes, m: Module, name: string, key: Key, r: Option<nat>)
    requires WellFormedElf(h, m) && DefinedOnce(m) && Identifies(h, m, key, name)
    requires InTable(m, PathOf(h, m, h.elf(name)))
    requires IsFirstOnPath(h, m, key, PathOf(h, m, h.elf(name)), r)
    ensures r == Scan(h, m, ByName(name), 0)
  {
    FirstOnPath(h, m, key, PathOf(h, m, h.elf(name)), r);
    var scan := Scan(h, m, ByName(name), 0);
    if scan.Some? {
      IdentifiedHits(h, m, key, name, scan.value);
      assert Hit(h, m, key, scan.value);
      assert scan.value > 0 && scan.value in PathOf(h, m, h.elf(name));
    }
    if r.Some? {
      IdentifiedHits(h, m, key, name, r.value);
    }
  }

  // ----- one module, all modules -----

  /** Definitions below the symbol offset would be invisible to the GNU table. */
  ghost predicate DefinitionsHashed(m: Module)
    requires GnuShape(m)
  {
    forall i: nat :: i < |m.symbols| && Defined(m.symbols[i]) ==> Hashed(m, i)
  }

  ghost predicate WellFormedModule(h: Hashes, m: Module)
  {
    if m.isGnuHash then WellFormedGnu(h, m) && DefinitionsHashed(m) else WellFormedElf(h, m) && DefinedOnce(m)
  }

  lemma {:induction false} ScanSkips(h: Hashes, m: Module, key: Key, lo: int, hi: int)
    requires 0 <= lo <= hi <= |m.symbols| && forall i :: lo <= i < hi ==> !Hit(h, m, key, i)
    ensures Scan(h, m, key, lo) == Scan(h, m, key, hi)
    decreases hi - lo
  {
    if lo < hi {
      ScanSkips(h, m, key, lo + 1, hi);
    }
  }

  method GetSymbolByName(h: Hashes, m: Module, name: string) returns (r: Option<nat>)
    requires WellFormedModule(h, m)
    ensures r == Scan(h, m, ByName(name), 0)
  {
    if m.isGnuHash {
      r := WalkGnu(h, m, h.djb2(name), ByName(name));
      GnuIsScan(h, m, name, ByName(name), r);
      ScanSkips(h, m, ByName(name), 0, SymOffset(m));
    } else {
      r := WalkElf(h, m, h.elf(name), ByName(name));
      ElfIsScan(h, m, name, ByName(name), r);
    }
  }

  /** Looking up by the three hashes of a name that murmur tells from the module's names. */
  method GetSymbolByHashes(h: Hashes, m: Module, bucketHash: U64, djb2Hash: U32, murmurHash: U32, ghost name: string)
      returns (r: Option<nat>)
    requires WellFormedModule(h, m) && Identifies(h, m, ByMurmur(murmurHash), name)
    requires bucketHash == h.elf(name) && djb2Hash == h.djb2(name)
    ensures r == Scan(h, m, ByName(name), 0)
  {
    if m.isGnuHash {
      r := WalkGnu(h, m, djb2Hash, ByMurmur(murmurHash));
      GnuIsScan(h, m, name, ByMurmur(murmurHash), r);
      ScanSkips(h, m, ByName(name), 0, SymOffset(m));
    } else {
      r := WalkElf(h, m, bucketHash, ByMurmur(murmurHash));
      ElfIsScan(h, m, name, ByMurmur(murmurHash), r);
    }
  }

  /** On a module with both tables they give the same symbol for every name, by name or by hash. */
  lemma TablesAgree(h: Hashes, m: Module, name: string, key: Key, viaGnu: Option<nat>, viaElf: Option<nat>)
    requires WellFormedGnu(h, m) && DefinitionsHashed(m) && WellFormedElf(h, m) && DefinedOnce(m)
    requires Identifies(h, m, key, name)
    requires if PassesBloom(m, h.djb2(name)) then IsFirstChainHit(h, m, h.djb2(name), key, viaGnu) else viaGnu == None
    requires InTable(m, PathOf(h, m, h.elf(name)))
    requires IsFirstOnPath(h, m, key, PathOf(h, m, h.elf(name)), viaElf)
    ensures viaGnu == viaElf == Scan(h, m, ByName(name), 0)
  {
    GnuIsScan(h, m, name, key, viaGnu);
    ElfIsScan(h, m, name, key, viaElf);
    ScanSkips(h, m, ByName(name), 0, SymOffset(m));
  }

  function Address(m: Module, i: nat): U64
    requires i < |m.symbols|
  {
    Wrap64(m.base + m.symbols[i].value)
  }

  /** The definition of the first module that has one, 0 without one. */
  function Resolve(h: Hashes, modules: seq<Module>, name: string): U64
  {
    if modules == [] then 0
    else
      match Scan(h, modules[0], ByName(name), 0)
      case Some(i) => Address(modules[0], i)
      case None => Resolve(h, modules[1..], name)
  }

  // ----- what the global address of a name is -----

  /** The symbol defines the name: it has a section, and is not common. */
  predicate Defines(sym: Sym, name: string) { sym.name == name && sym.shndx != 0 && sym.shndx != 0xFFF2 }

  /** Symbol `i` is the first of the module that defines the name. */
  predicate DefinesFirst(m: Module, name: string, i: nat)
  {
    && i < |m.symbols| && Defines(m.symbols[i], name)
    && forall j :: 0 <= j < i ==> !Defines(m.symbols[j], name)
  }

  predicate NotDefined(m: Module, name: string) { forall j :: 0 <= j < |m.symbols| ==> !Defines(m.symbols[j], name) }

  /** A module defines each name once if two symbols that define one name are the same symbol, and
      the null symbol defines nothing. */
  lemma DefinedOnceMeans(m: Module)
    requires |m.symbols| > 0 ==> m.symbols[0].shndx == 0
    requires forall i: nat, j: nat, name: string ::
               i < |m.symbols| && j < |m.symbols| && Defines(m.symbols[i], name) && Defines(m.symbols[j], name) ==>
               i == j
    ensures DefinedOnce(m)
  {
    forall i, j | 0 <= i < |m.symbols| && 0 <= j < |m.symbols| && SameDefinition(m.symbols[i], m.symbols[j])
      ensures i == j
    {
      assert Defines(m.symbols[i], m.symbols[i].name) && Defines(m.symbols[j], m.symbols[i].name);
    }
  }

  /** The place that symbol `i` of module `k` defines, no earlier symbol of that module and no
      earlier module having a definition. */
  predicate IsFirstPlace(modules: seq<Module>, name: string, k: nat, i: nat, address: U64)
  {
    && k < |modules| && DefinesFirst(modules[k], name, i)
    && (forall j :: 0 <= j < k ==> NotDefined(modules[j], name))
    && address == (modules[k].base + modules[k].symbols[i].value) % TWO64
  }

  /** The address of the first definition in list order, or 0 when nobody defines the name. */
  ghost predicate IsGlobalAddress(modules: seq<Module>, name: string, address: U64)
  {
    || (address == 0 && forall m :: m in modules ==> NotDefined(m, name))
    || exists k: nat, i: nat :: IsFirstPlace(modules, name, k, i, address)
  }

  lemma ScanDefines(h: Hashes, m: Module, name: string)
    ensures match Scan(h, m, ByName(name), 0)
            case Some(i) => DefinesFirst(m, name, i)
            case None => NotDefined(m, name)
  {
    forall j | 0 <= j < |m.symbols|
      ensures Hit(h, m, ByName(name), j) <==> Defines(m.symbols[j], name)
    {
    }
  }

  lemma {:induction false} ResolvesGlobally(h: Hashes, modules: seq<Module>, name: string)
    ensures IsGlobalAddress(modules, name, Resolve(h, modules, name))
    decreases |modules|
  {
    if modules != [] {
      ScanDefines(h, modules[0], name);
      var found := Scan(h, modules[0], ByName(name), 0);
      if found.Some? {
        assert IsFirstPlace(modules, name, 0, found.value, Resolve(h, modules, name));
      } else {
        ResolvesGlobally(h, modules[1..], name);
        BehindUndefined(modules, name, Resolve(h, modules, name));
      }
    }
  }

  lemma BehindUndefined(modules: seq<Module>, name: string, address: U64)
    requires modules != [] && NotDefined(modules[0], name) && IsGlobalAddress(modules[1..], name, address)
    ensures IsGlobalAddress(modules, name, address)
  {
    var rest := modules[1..];
    if k: nat, i: nat :| IsFirstPlace(rest, name, k, i, address) {
      forall j | 0 <= j < k + 1
        ensures NotDefined(modules[j], name)
      {
        assert j > 0 ==> modules[j] == rest[j - 1];
      }
      assert IsFirstPlace(modules, name, k + 1, i, address);
    } else {
      assert forall m :: m in modules ==> m == modules[0] || m in rest;
    }
  }

  /** There is one such address. */
  lemma OneGlobalAddress(modules: seq<Module>, name: string, a: U64, b: U64)
    requires IsGlobalAddress(modules, name, a) && IsGlobalAddress(modules, name, b)
    ensures a == b
  {
    if k: nat, i: nat :| IsFirstPlace(modules, name, k, i, a) {
      OnlyPlace(modules, name, k, i, a, b);
    } else if k: nat, i: nat :| IsFirstPlace(modules, name, k, i, b) {
      OnlyPlace(modules, name, k, i, b, a);
    }
  }

  lemma OnlyPlace(modules: seq<Module>, name: string, k: nat, i: nat, a: U64, b: U64)
    requires IsFirstPlace(modules, name, k, i, a) && IsGlobalAddress(modules, name, b)
    ensures a == b
  {
    assert modules[k] in modules && !NotDefined(modules[k], name);
    var k': nat, i': nat :| IsFirstPlace(modules, name, k', i', b);
    assert !(k < k') && !(k' < k) && !(i < i') && !(i' < i);
  }

  /** `lookupSymbol` by name. */
  method LookupSymbol(h: Hashes, modules: seq<Module>, symbol: string) returns (address: U64)
    requires forall m :: m in modules ==> WellFormedModule(h, m)
    ensures address == Resolve(h, modules, symbol) && IsGlobalAddress(modules, symbol, address)
  {
    ResolvesGlobally(h, modules, symbol);
    var i := 0;
    assert modules[0..] == modules;
    while i < |modules|
      invariant i <= |modules|
      invariant Resolve(h, modules[i..], symbol) == Resolve(h, modules, symbol)
    {
      assert modules[i..][1..] == modules[i + 1..];
      var sym := GetSymbolByName(h, modules[i], symbol);
      if sym.Some? {
        return Address(modules[i], sym.value);
      }
      i := i + 1;
    }
    address := 0;
  }

  /** `lookupSymbol` by hashes: the same address as by name. */
  method LookupSymbolByHashes(
      h: Hashes, modules: seq<Module>, bucketHash: U64, djb2Hash: U32, murmurHash: U32, ghost name: string)
    returns (address: U64)
    requires forall m :: m in modules ==> WellFormedModule(h, m) && Identifies(h, m, ByMurmur(murmurHash), name)
    requires bucketHash == h.elf(name) && djb2Hash == h.djb2(name)
    ensures address == Resolve(h, modules, name) && IsGlobalAddress(modules, name, address)
  {
    ResolvesGlobally(h, modules, name);
    var i := 0;
    assert modules[0..] == modules;
    while i < |modules|
      invariant i <= |modules|
      invariant Resolve(h, modules[i..], name) == Resolve(h, modules, name)
    {
      assert modules[i..][1..] == modules[i + 1..];
      var sym := GetSymbolByHashes(h, modules[i], bucketHash, djb2Hash, murmurHash, name);
      if sym.Some? {
        return Address(modules[i], sym.value);
      }
      i := i + 1;
    }
    address := 0;
  }
}
