/** The two hash tables as a linker lays them out (the System V gABI, chapter 5, and the GNU
    variant), word by word, and that the lookups of `ElfLookup` read exactly these words. */
module ElfTables {
  import opened ElfLookup
  import opened Hashing
  import opened Options
  import opened Words

  // ----- the GNU table -----

  /** A table in parts: one bloom word of 64 bits for each of a power of two of words, the index of
      the first symbol of each bucket or 0, and a chain word for each symbol from `first` on. */
  datatype Gnu = Gnu(first: U32, shift: U32, bloom: seq<U64>, starts: seq<U32>, chain: seq<U32>)

  /** The 32-bit halves of 64-bit words, the low one first. */
  function Halves(words: seq<U64>): (r: seq<U32>)
    ensures |r| == 2 * |words|
  {
    if words == [] then []
    else Halves(words[..|words| - 1]) + [words[|words| - 1] % TWO32, words[|words| - 1] / TWO32]
  }

  lemma {:induction false} HalvesAt(words: seq<U64>, w: nat)
    requires w < |words|
    ensures Halves(words)[2 * w] + TWO32 * Halves(words)[2 * w + 1] == words[w]
  {
    if w < |words| - 1 {
      HalvesAt(words[..|words| - 1], w);
    }
  }

  function Laid(t: Gnu): seq<nat> { [|t.starts|, t.first, |t.bloom|, t.shift] + Halves(t.bloom) + t.starts + t.chain }

  /** The bucket of symbol `i`. */
  function Bucket(h: Hashes, m: Module, t: Gnu, i: nat): nat
    requires i < |m.symbols| && t.starts != []
  {
    h.djb2(m.symbols[i].name) % |t.starts|
  }

  /** Two bits for each hash, chosen by its low bits and by its bits from the shift on, in the word
      that its bits from 6 on choose. */
  ghost predicate Filters(h: Hashes, m: Module, t: Gnu)
    requires t.bloom != [] && t.shift < 32
  {
    forall i: nat :: t.first <= i < |m.symbols| ==>
      var hash := h.djb2(m.symbols[i].name);
      var word := t.bloom[hash / 64 % |t.bloom|];
      TestBit(word, hash % 64) && TestBit(word, hash / Pow2(t.shift) % 64)
  }

  /** Symbol `i` is the last of its bucket. */
  predicate IsLast(h: Hashes, m: Module, t: Gnu, i: nat)
    requires i < |m.symbols| && t.starts != []
  {
    i + 1 == |m.symbols| || Bucket(h, m, t, i + 1) != Bucket(h, m, t, i)
  }

  /** Symbols of one bucket follow one another; the chain word of a symbol is its hash with the
      lowest bit telling whether it is the last of its bucket. */
  ghost predicate Chains(h: Hashes, m: Module, t: Gnu)
    requires t.starts != [] && |t.chain| == |m.symbols| - t.first
  {
    && (forall i: nat :: t.first <= i < |m.symbols| ==>
          var hash := h.djb2(m.symbols[i].name);
          t.chain[i - t.first] == hash - hash % 2 + if IsLast(h, m, t, i) then 1 else 0)
    && (forall i: nat, j: nat, k: nat :: t.first <= i <= j <= k < |m.symbols| ==>
          Bucket(h, m, t, i) == Bucket(h, m, t, k) ==> Bucket(h, m, t, j) == Bucket(h, m, t, i))
  }

  /** Each bucket names its first symbol, or 0 when it has none. */
  ghost predicate Starts(h: Hashes, m: Module, t: Gnu)
  {
    forall b: nat :: b < |t.starts| ==>
      if t.starts[b] == 0 then forall i: nat :: t.first <= i < |m.symbols| ==> Bucket(h, m, t, i) != b
      else
        && t.first <= t.starts[b] < |m.symbols| && Bucket(h, m, t, t.starts[b]) == b
        && forall i: nat :: t.first <= i < t.starts[b] ==> Bucket(h, m, t, i) != b
  }

  ghost predicate Links(h: Hashes, m: Module, t: Gnu)
  {
    && 0 < t.first <= |m.symbols| && t.shift < 32 && IsPow2(|t.bloom|) && t.starts != []
    && |t.chain| == |m.symbols| - t.first && |Laid(t)| < TWO32
    && Filters(h, m, t) && Chains(h, m, t) && Starts(h, m, t)
  }

  lemma LaidWords(m: Module, t: Gnu)
    requires m.gnuHash == Laid(t) && t.first <= |m.symbols| && |t.chain| == |m.symbols| - t.first
    requires |Laid(t)| < TWO32 && t.starts != [] && IsPow2(|t.bloom|)
    ensures GnuShape(m) && Buckets(m) == |t.starts| && SymOffset(m) == t.first && MaskWords(m) == |t.bloom|
    ensures m.gnuHash[3] == t.shift
    ensures forall b: nat :: b < |t.starts| ==> BucketWord(m, b) == t.starts[b]
    ensures forall i: nat :: t.first <= i < |m.symbols| ==> ChainWord(m, i) == t.chain[i - t.first]
    ensures forall w: nat :: w < |t.bloom| ==> BloomWord(m, w) == t.bloom[w]
  {
    forall w: nat | w < |t.bloom|
      ensures BloomWord(m, w) == t.bloom[w]
    {
      HalvesAt(t.bloom, w);
    }
  }

  lemma WordIndex(m: Module, hash: U32)
    requires GnuShape(m)
    ensures WordIdx(m, hash) == hash / 64 % MaskWords(m)
  {
    var k: nat :| Pow2(k) == MaskWords(m);
    AndLowMask(hash / 64, k);
  }

  lemma FilterGives(h: Hashes, m: Module, t: Gnu, i: nat) returns (hash: U32, w: nat, word: U64, low: nat, high: nat)
    requires t.bloom != [] && t.shift < 32 && Filters(h, m, t) && t.first <= i < |m.symbols|
    ensures hash == h.djb2(m.symbols[i].name) && w == hash / 64 % |t.bloom| && word == t.bloom[w]
    ensures low == hash % 64 && high == hash / Pow2(t.shift) % 64 && TestBit(word, low) && TestBit(word, high)
  {
    hash := h.djb2(m.symbols[i].name);
    w := hash / 64 % |t.bloom|;
    word, low, high := t.bloom[w], hash % 64, hash / Pow2(t.shift) % 64;
  }

  lemma BothBits(m: Module, hash: U32, shift: nat, w: nat, word: U64, low: nat, high: nat)
    requires GnuShape(m) && m.gnuHash[3] == shift < 32 && WordIdx(m, hash) == w && BloomWord(m, w) == word
    requires low == hash % 64 && high == hash / Pow2(shift) % 64 && TestBit(word, low) && TestBit(word, high)
    ensures PassesBloom(m, hash)
  {
    assert m.gnuHash[3] % 32 == shift;
  }

  lemma PassesLinked(h: Hashes, m: Module, t: Gnu, i: nat)
    requires m.gnuHash == Laid(t) && Links(h, m, t) && t.first <= i < |m.symbols|
    ensures GnuShape(m) && PassesBloom(m, h.djb2(m.symbols[i].name))
  {
    var hash, w, word, low, high := FilterGives(h, m, t, i);
    LaidWords(m, t);
    WordIndex(m, hash);
    BothBits(m, hash, t.shift, w, word, low, high);
  }

  lemma MarkedWord(hash: nat, word: nat, last: bool)
    requires word == hash - hash % 2 + if last then 1 else 0
    ensures word / 2 == hash / 2 && (word % 2 == 1 <==> last)
  {
    DivModUnique(word, 2, hash / 2, if last then 1 else 0);
  }

  lemma ChainGives(h: Hashes, m: Module, t: Gnu, i: nat) returns (hash: nat, word: nat, last: bool)
    requires t.starts != [] && |t.chain| == |m.symbols| - t.first && Chains(h, m, t) && t.first <= i < |m.symbols|
    ensures hash == h.djb2(m.symbols[i].name) && word == t.chain[i - t.first] && (last <==> IsLast(h, m, t, i))
    ensures word == hash - hash % 2 + if last then 1 else 0
  {
    hash, word, last := h.djb2(m.symbols[i].name), t.chain[i - t.first], IsLast(h, m, t, i);
  }

  lemma ChainLinked(h: Hashes, m: Module, t: Gnu, i: nat)
    requires m.gnuHash == Laid(t) && Links(h, m, t) && t.first <= i < |m.symbols|
    ensures GnuShape(m) && Hashed(m, i) && ChainWord(m, i) / 2 == h.djb2(m.symbols[i].name) / 2
    ensures ChainWord(m, i) % 2 == 1 <==> IsLast(h, m, t, i)
  {
    var hash, word, last := ChainGives(h, m, t, i);
    MarkedWord(hash, word, last);
    LaidWords(m, t);
  }

  /** What a linker lays out is what the GNU lookup takes for granted. */
  lemma LinkedIsWellFormed(h: Hashes, m: Module, t: Gnu)
    requires m.gnuHash == Laid(t) && Links(h, m, t)
    ensures WellFormedGnu(h, m) && SymOffset(m) == t.first
  {
    LaidWords(m, t);
    forall i: nat | t.first <= i < |m.symbols|
      ensures PassesBloom(m, h.djb2(m.symbols[i].name)) && BucketOf(h, m, i) == Bucket(h, m, t, i)
      ensures ChainWord(m, i) / 2 == h.djb2(m.symbols[i].name) / 2
      ensures ChainWord(m, i) % 2 == 1 <==> IsLast(h, m, t, i)
    {
      PassesLinked(h, m, t, i);
      ChainLinked(h, m, t, i);
    }
    BucketsLinked(h, m, t);
  }

  lemma BucketsLinked(h: Hashes, m: Module, t: Gnu)
    requires m.gnuHash == Laid(t) && Links(h, m, t) && GnuShape(m) && SymOffset(m) == t.first
    requires Buckets(m) == |t.starts| && forall b: nat :: b < |t.starts| ==> BucketWord(m, b) == t.starts[b]
    ensures forall b: nat :: b < Buckets(m) ==> IsBucketStart(h, m, b, BucketWord(m, b))
  {
    forall b: nat | b < |t.starts|
      ensures IsBucketStart(h, m, b, t.starts[b])
    {
      assert forall i: nat :: Hashed(m, i) ==> BucketOf(h, m, i) == Bucket(h, m, t, i);
    }
  }

  /** In a module whose GNU table is laid out so, and whose definitions are all in it, looking a name
      up finds its first definition, or nothing when it has none. */
  method LookupLinked(h: Hashes, m: Module, ghost t: Gnu, name: string) returns (r: Option<nat>)
    requires m.isGnuHash && m.gnuHash == Laid(t) && Links(h, m, t)
    requires forall i: nat :: i < t.first ==> m.symbols[i].shndx == 0 || m.symbols[i].shndx == 0xFFF2
    ensures match r case Some(i) => DefinesFirst(m, name, i) case None => NotDefined(m, name)
  {
    LinkedIsWellFormed(h, m, t);
    r := GetSymbolByName(h, m, name);
    ScanDefines(h, m, name);
  }

  // ----- the System V table -----

  /** Two counts, the first symbol of each bucket, and the next symbol for each symbol. */
  lemma SystemVWords(m: Module, buckets: seq<U32>, chains: seq<U32>)
    requires m.hashTable == [|buckets|, |chains|] + buckets + chains && buckets != [] && |chains| == |m.symbols|
    ensures ElfShape(m)
    ensures forall hash: nat :: ElfBucket(m, hash) == buckets[hash % |buckets|]
    ensures forall i: nat :: i < |m.symbols| ==> ElfChain(m, i) == chains[i]
  {
  }
}
