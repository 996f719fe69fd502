/** The PFS0 writer of tools/build_pfs0.py: names, header, contents and entries are written to one
    file by seeking back and forth. */
module Pfs0 {
  import opened Buffers
  import opened Options
  import opened Words

  const ENTRIES: nat := 0x10
  const ENTRY_SIZE: nat := 0x18

  // ----- files -----

  class File {
    var stream: seq<U8>
    var position: nat

    constructor ()
      ensures stream == [] && position == 0
    {
      stream, position := [], 0;
    }

    method Seek(offset: nat)
      modifies this
      ensures stream == old(stream) && position == offset
    {
      position := offset;
    }

    method Write(data: seq<U8>)
      modifies this
      ensures stream == WriteAt(old(stream), old(position), data) && position == old(position) + |data|
    {
      stream := WriteAt(stream, position, data);
      position := position + |data|;
    }

    /** `struct.pack` into `width` bytes raises an error when the number does not fit. */
    method WriteNumber(value: nat, width: nat) returns (ok: bool)
      modifies this
      ensures ok <==> value < Pow2(8 * width)
      ensures ok ==>
                stream == WriteAt(old(stream), old(position), Bytes(value, width)) && position == old(position) + width
      ensures !ok ==> stream == old(stream) && position == old(position)
    {
      ok := value < Pow2(8 * width);
      if ok {
        Write(Bytes(value, width));
      }
    }

    /** Encoding as ASCII raises an error for any other character. */
    method WriteString(text: string) returns (ok: bool)
      modifies this
      ensures ok <==> IsAscii(text)
      ensures ok ==>
                stream == WriteAt(old(stream), old(position), NameBytes(text)) && position == old(position) + |text|
      ensures !ok ==> stream == old(stream) && position == old(position)
    {
      ok := IsAscii(text);
      if ok {
        Write(NameBytes(text));
      }
    }

    /** `align` seeks by the rounded position from the current one. */
    method Align(alignment: nat)
      requires alignment > 0
      modifies this
      ensures stream == old(stream) && position == old(position) + AlignUp(old(position), alignment)
    {
      position := position + AlignUp(position, alignment);
    }
  }

  // ----- layout -----

  datatype Source = Source(name: string, content: seq<U8>)

  predicate IsAscii(name: string) { forall k :: 0 <= k < |name| ==> name[k] as nat < 128 }

  function NameBytes(name: string): (b: seq<U8>)
    requires IsAscii(name)
    ensures |b| == |name| && forall k :: 0 <= k < |name| ==> b[k] == name[k] as nat
  {
    seq(|name|, k requires 0 <= k < |name| => name[k] as nat)
  }

  /** Where name `i` starts in the string pool. */
  function NameOffset(files: seq<Source>, i: nat): nat
    requires i <= |files|
  {
    if i == 0 then 0 else NameOffset(files, i - 1) + |files[i - 1].name| + 1
  }

  /** Where content `i` starts in the data. */
  function ContentOffset(files: seq<Source>, i: nat): nat
    requires i <= |files|
  {
    if i == 0 then 0 else ContentOffset(files, i - 1) + |files[i - 1].content|
  }

  function PoolStart(files: seq<Source>): nat { ENTRIES + ENTRY_SIZE * |files| }

  function PoolEnd(files: seq<Source>): nat { PoolStart(files) + NameOffset(files, |files|) }

  function DataStart(files: seq<Source>): nat { PoolEnd(files) + AlignUp(PoolEnd(files), 0x10) }

  function EntryStart(i: nat): nat { ENTRIES + ENTRY_SIZE * i }

  function PoolSize(files: seq<Source>): nat { DataStart(files) - PoolStart(files) }

  predicate AsciiUpTo(files: seq<Source>, n: nat)
    requires n <= |files|
  {
    forall i :: 0 <= i < n ==> IsAscii(files[i].name)
  }

  predicate AllAscii(files: seq<Source>) { AsciiUpTo(files, |files|) }

  /** What the entry of file `i` can hold. */
  predicate EntryFits(files: seq<Source>, i: nat)
    requires i < |files|
  {
    ContentOffset(files, i) < TWO64 && |files[i].content| < TWO64 && NameOffset(files, i) < TWO32
  }

  predicate EntriesFit(files: seq<Source>, n: nat)
    requires n <= |files|
  {
    forall i :: 0 <= i < n ==> EntryFits(files, i)
  }

  /** What the ASCII encoding and every field that is written can hold. */
  predicate Fits(files: seq<Source>)
  {
    AllAscii(files) && |files| < TWO32 && PoolSize(files) < TWO32 && EntriesFit(files, |files|)
  }

  ghost predicate DistinctNames(files: seq<Source>)
  {
    forall i, j :: 0 <= i < j < |files| ==> files[i].name != files[j].name
  }

  lemma {:induction false} OffsetsGrow(files: seq<Source>, i: nat, j: nat)
    requires i < j <= |files|
    ensures NameOffset(files, i) + |files[i].name| + 1 <= NameOffset(files, j)
    ensures ContentOffset(files, i) + |files[i].content| <= ContentOffset(files, j)
    decreases j
  {
    if i < j - 1 {
      OffsetsGrow(files, i, j - 1);
    }
  }

  /** Where the parts of file `i` lie. */
  ghost predicate InItsRegions(files: seq<Source>, i: nat)
    requires i < |files|
  {
    && ENTRIES <= EntryStart(i) && EntryStart(i) + ENTRY_SIZE <= PoolStart(files)
    && PoolStart(files) <= NameStart(files, i) && NameStart(files, i) + |files[i].name| + 1 <= PoolEnd(files)
    && DataStart(files) <= ContentStart(files, i)
    && ContentStart(files, i) + |files[i].content| <= ContentStart(files, |files|)
  }

  /** The parts of file `i` end before those of file `j`. */
  ghost predicate PartsApart(files: seq<Source>, i: nat, j: nat)
    requires i < j < |files|
  {
    && EntryStart(i) + ENTRY_SIZE <= EntryStart(j)
    && NameStart(files, i) + |files[i].name| + 1 <= NameStart(files, j)
    && ContentStart(files, i) + |files[i].content| <= ContentStart(files, j)
  }

  lemma FileInItsRegions(files: seq<Source>, i: nat)
    requires i < |files|
    ensures InItsRegions(files, i)
  {
    OffsetsGrow(files, i, |files|);
  }

  lemma FilesApart(files: seq<Source>, i: nat, j: nat)
    requires i < j < |files|
    ensures PartsApart(files, i, j)
  {
    OffsetsGrow(files, i, j);
  }

  /** Header, entries, string pool and data follow each other without overlap, every part of every
      file lies in its region, and no two entries, names or contents overlap. */
  lemma RegionsAreDisjoint(files: seq<Source>)
    ensures |HeaderBytes(files)| <= ENTRIES <= PoolStart(files) <= PoolEnd(files) <= DataStart(files)
    ensures forall i :: 0 <= i < |files| ==> InItsRegions(files, i)
    ensures forall i, j :: 0 <= i < j < |files| ==> PartsApart(files, i, j)
  {
    forall i | 0 <= i < |files|
      ensures InItsRegions(files, i)
    {
      FileInItsRegions(files, i);
    }
    forall i, j | 0 <= i < j < |files|
      ensures PartsApart(files, i, j)
    {
      FilesApart(files, i, j);
    }
  }

  /** The data is meant to start at a multiple of 16; it does only when the pool already ends at one. */
  lemma DataAlignedExactlyWhen(files: seq<Source>)
    ensures DataStart(files) % 0x10 == 0 <==> PoolEnd(files) % 0x10 == 0
  {
    assert Pow2(4) == 0x10;
    AlignUpIsLeast(PoolEnd(files), 0x10);
    var q := AlignUp(PoolEnd(files), 0x10) / 0x10;
    DivModUnique(DataStart(files), 0x10, PoolEnd(files) / 0x10 + q, PoolEnd(files) % 0x10);
  }

  // ----- the image -----

  function EntryBytes(files: seq<Source>, i: nat): (b: seq<U8>)
    requires i < |files|
    ensures |b| == 20
  {
    Bytes(ContentOffset(files, i), 8) + Bytes(|files[i].content|, 8) + Bytes(NameOffset(files, i), 4)
  }

  /** A name in the string pool, with its terminator. */
  function NameRecord(name: string): (b: seq<U8>)
    requires IsAscii(name)
    ensures |b| == |name| + 1 && b[|name|] == 0 && forall k :: 0 <= k < |name| ==> b[k] == name[k] as nat
  {
    NameBytes(name) + [0]
  }

  function NameStart(files: seq<Source>, i: nat): nat
    requires i <= |files|
  {
    PoolStart(files) + NameOffset(files, i)
  }

  function HeaderBytes(files: seq<Source>): (b: seq<U8>)
    ensures |b| == 12
  {
    [0x50, 0x46, 0x53, 0x30] + Bytes(|files|, 4) + Bytes(PoolSize(files), 4)
  }

  ghost predicate HoldsName(image: seq<U8>, files: seq<Source>, i: nat)
    requires i < |files| && IsAscii(files[i].name)
  {
    Holds(image, NameStart(files, i), NameRecord(files[i].name))
  }

  function ContentStart(files: seq<Source>, i: nat): nat
    requires i <= |files|
  {
    DataStart(files) + ContentOffset(files, i)
  }

  ghost predicate HoldsEntry(image: seq<U8>, files: seq<Source>, i: nat)
    requires i < |files|
  {
    Holds(image, EntryStart(i), EntryBytes(files, i))
  }

  ghost predicate HoldsContent(image: seq<U8>, files: seq<Source>, i: nat)
    requires i < |files|
  {
    Holds(image, ContentStart(files, i), files[i].content)
  }

  ghost predicate HoldsFiles(image: seq<U8>, files: seq<Source>, n: nat)
    requires n <= |files|
  {
    forall i :: 0 <= i < n ==> HoldsEntry(image, files, i) && HoldsContent(image, files, i)
  }

  ghost predicate IsImage(image: seq<U8>, files: seq<Source>)
    requires AllAscii(files)
  {
    Holds(image, 0, HeaderBytes(files)) && HoldsNames(image, files, |files|) && HoldsFiles(image, files, |files|)
  }

  ghost predicate HoldsNames(image: seq<U8>, files: seq<Source>, n: nat)
    requires n <= |files| && AsciiUpTo(files, n)
  {
    forall i :: 0 <= i < n ==> HoldsName(image, files, i)
  }

  ghost predicate OffsetsKept(offsets: map<string, nat>, files: seq<Source>, n: nat)
    requires n <= |files|
  {
    forall i :: 0 <= i < n ==> OffsetKept(offsets, files, i)
  }

  ghost predicate OffsetKept(offsets: map<string, nat>, files: seq<Source>, i: nat)
    requires i < |files|
  {
    files[i].name in offsets && offsets[files[i].name] == NameOffset(files, i)
  }

  /** The names loop: each name with its terminator, its offset kept by name. */
  method WriteNames(outf: File, files: seq<Source>) returns (ok: bool, offsets: map<string, nat>)
    requires DistinctNames(files) && outf.position == PoolStart(files)
    modifies outf
    ensures ok <==> AllAscii(files)
    ensures ok ==> outf.position == PoolEnd(files) && HoldsNames(outf.stream, files, |files|)
    ensures ok ==> OffsetsKept(offsets, files, |files|)
  {
    offsets := map[];
    var i := 0;
    while i < |files|
      invariant i <= |files| && outf.position == NameStart(files, i) && AsciiUpTo(files, i)
      invariant HoldsNames(outf.stream, files, i) && OffsetsKept(offsets, files, i)
    {
      KeepOffset(offsets, files, i, NameOffset(files, i));
      offsets := offsets[files[i].name := outf.position - PoolStart(files)];
      ok := WriteName(outf, files, i);
      if !ok {
        return;
      }
      i := i + 1;
    }
    ok := true;
  }

  lemma KeepOffset(offsets: map<string, nat>, files: seq<Source>, i: nat, offset: nat)
    requires i < |files| && DistinctNames(files) && OffsetsKept(offsets, files, i) && offset == NameOffset(files, i)
    ensures OffsetsKept(offsets[files[i].name := offset], files, i + 1)
  {
    var after := offsets[files[i].name := offset];
    forall j | 0 <= j < i + 1
      ensures OffsetKept(after, files, j)
    {
      if j < i {
        assert files[j].name != files[i].name;
        assert OffsetKept(offsets, files, j);
      }
    }
  }

  method WriteName(outf: File, files: seq<Source>, i: nat) returns (ok: bool)
    requires i < |files| && AsciiUpTo(files, i) && outf.position == NameStart(files, i)
    requires HoldsNames(outf.stream, files, i)
    modifies outf
    ensures ok <==> IsAscii(files[i].name)
    ensures ok ==> outf.position == NameStart(files, i + 1) && HoldsNames(outf.stream, files, i + 1)
  {
    ghost var was := outf.stream;
    ok := outf.WriteString(files[i].name);
    if ok {
      WriteOn(was, NameStart(files, i), NameBytes(files[i].name), [0]);
      outf.Write([0]);
      assert outf.stream == WriteAt(was, NameStart(files, i), NameRecord(files[i].name));
      NameAppends(was, outf.stream, files, i);
    }
  }

  lemma NameStays(stream: seq<U8>, after: seq<U8>, files: seq<Source>, i: nat, j: nat)
    requires j < i < |files| && IsAscii(files[i].name) && IsAscii(files[j].name)
    requires after == WriteAt(stream, NameStart(files, i), NameRecord(files[i].name))
    requires HoldsName(stream, files, j)
    ensures HoldsName(after, files, j)
  {
    OffsetsGrow(files, j, i);
    StillHolds(stream, NameStart(files, i), NameRecord(files[i].name), NameStart(files, j), NameRecord(files[j].name));
  }

  lemma NameAppends(stream: seq<U8>, after: seq<U8>, files: seq<Source>, i: nat)
    requires i < |files| && AsciiUpTo(files, i + 1) && HoldsNames(stream, files, i)
    requires after == WriteAt(stream, NameStart(files, i), NameRecord(files[i].name))
    ensures HoldsNames(after, files, i + 1)
  {
    HoldsWritten(stream, NameStart(files, i), NameRecord(files[i].name));
    forall j | 0 <= j < i
      ensures HoldsName(after, files, j)
    {
      NameStays(stream, after, files, i, j);
    }
  }

  // ----- header, contents and entries -----

  /** Everything but the files from `n` on. */
  ghost predicate Partial(image: seq<U8>, files: seq<Source>, n: nat)
    requires n <= |files| && AllAscii(files)
  {
    Holds(image, 0, HeaderBytes(files)) && HoldsNames(image, files, |files|) && HoldsFiles(image, files, n)
  }

  /** A write outside the header and the string pool keeps both. */
  lemma KeepsNames(image: seq<U8>, after: seq<U8>, files: seq<Source>, pos: nat, data: seq<U8>, i: nat)
    requires i < |files| && AllAscii(files) && after == WriteAt(image, pos, data)
    requires pos + |data| <= PoolStart(files) || PoolEnd(files) <= pos
    requires HoldsName(image, files, i)
    ensures HoldsName(after, files, i)
  {
    OffsetsGrow(files, i, |files|);
    StillHolds(image, pos, data, NameStart(files, i), NameRecord(files[i].name));
  }

  lemma ContentKeepsFile(image: seq<U8>, after: seq<U8>, files: seq<Source>, i: nat, j: nat)
    requires j < i < |files| && after == WriteAt(image, ContentStart(files, i), files[i].content)
    ensures HoldsEntry(image, files, j) ==> HoldsEntry(after, files, j)
    ensures HoldsContent(image, files, j) ==> HoldsContent(after, files, j)
  {
    ContentsApart(files, i, j);
    if HoldsEntry(image, files, j) {
      StillHolds(image, ContentStart(files, i), files[i].content, EntryStart(j), EntryBytes(files, j));
    }
    if HoldsContent(image, files, j) {
      StillHolds(image, ContentStart(files, i), files[i].content, ContentStart(files, j), files[j].content);
    }
  }

  lemma ContentsApart(files: seq<Source>, i: nat, j: nat)
    requires j < i < |files|
    ensures ContentStart(files, j) + |files[j].content| <= ContentStart(files, i)
    ensures EntryStart(j) + 20 <= EntryStart(i) && EntryStart(i) + 20 <= PoolStart(files) <= ContentStart(files, j)
  {
    OffsetsGrow(files, j, i);
  }

  lemma EntryKeepsFile(image: seq<U8>, after: seq<U8>, files: seq<Source>, i: nat, j: nat)
    requires j < i < |files| && after == WriteAt(image, EntryStart(i), EntryBytes(files, i))
    ensures HoldsEntry(image, files, j) ==> HoldsEntry(after, files, j)
    ensures HoldsContent(image, files, j) ==> HoldsContent(after, files, j)
  {
    ContentsApart(files, i, j);
    if HoldsEntry(image, files, j) {
      StillHolds(image, EntryStart(i), EntryBytes(files, i), EntryStart(j), EntryBytes(files, j));
    }
    if HoldsContent(image, files, j) {
      StillHolds(image, EntryStart(i), EntryBytes(files, i), ContentStart(files, j), files[j].content);
    }
  }

  /** Writing content `i` keeps what is there. */
  lemma ContentKeeps(image: seq<U8>, after: seq<U8>, files: seq<Source>, i: nat)
    requires i < |files| && AllAscii(files) && Partial(image, files, i)
    requires after == WriteAt(image, ContentStart(files, i), files[i].content)
    ensures Partial(after, files, i) && HoldsContent(after, files, i)
  {
    HoldsWritten(image, ContentStart(files, i), files[i].content);
    StillHolds(image, ContentStart(files, i), files[i].content, 0, HeaderBytes(files));
    forall j | 0 <= j < |files|
      ensures HoldsName(after, files, j)
    {
      KeepsNames(image, after, files, ContentStart(files, i), files[i].content, j);
    }
    forall j | 0 <= j < i
      ensures HoldsEntry(after, files, j) && HoldsContent(after, files, j)
    {
      ContentKeepsFile(image, after, files, i, j);
    }
  }

  /** Writing its entry then completes file `i`. */
  lemma EntryCompletes(image: seq<U8>, after: seq<U8>, files: seq<Source>, i: nat)
    requires i < |files| && AllAscii(files) && Partial(image, files, i) && HoldsContent(image, files, i)
    requires after == WriteAt(image, EntryStart(i), EntryBytes(files, i))
    ensures Partial(after, files, i + 1)
  {
    HoldsWritten(image, EntryStart(i), EntryBytes(files, i));
    StillHolds(image, EntryStart(i), EntryBytes(files, i), 0, HeaderBytes(files));
    StillHolds(image, EntryStart(i), EntryBytes(files, i), ContentStart(files, i), files[i].content);
    forall j | 0 <= j < |files|
      ensures HoldsName(after, files, j)
    {
      KeepsNames(image, after, files, EntryStart(i), EntryBytes(files, i), j);
    }
    forall j | 0 <= j < i
      ensures HoldsEntry(after, files, j) && HoldsContent(after, files, j)
    {
      EntryKeepsFile(image, after, files, i, j);
    }
  }

  /** Copies a content in chunks of 0x100000 bytes. */
  method WriteContent(outf: File, content: seq<U8>)
    modifies outf
    ensures outf.stream == WriteAt(old(outf.stream), old(outf.position), content)
    ensures outf.position == old(outf.position) + |content|
  {
    ghost var was, start := outf.stream, outf.position;
    var read := 0;
    while read < |content|
      invariant read <= |content| && outf.position == start + read
      invariant outf.stream == WriteAt(was, start, content[..read])
    {
      var end := if read + 0x100000 < |content| then read + 0x100000 else |content|;
      ChunkWritten(was, start, content, read, end);
      outf.Write(content[read..end]);
      read := end;
    }
    assert content[..read] == content;
  }

  lemma ChunkWritten(file: seq<U8>, start: nat, content: seq<U8>, read: nat, end: nat)
    requires read <= end <= |content|
    ensures WriteAt(WriteAt(file, start, content[..read]), start + read, content[read..end])
         == WriteAt(file, start, content[..end])
  {
    var done, chunk := content[..read], content[read..end];
    assert done + chunk == content[..end];
    WriteOn(file, start, done, chunk);
  }

  method WriteFields(outf: File, first: nat, second: nat, third: nat) returns (ok: bool)
    modifies outf
    ensures ok <==> first < TWO64 && second < TWO64 && third < TWO32
    ensures ok ==>
              outf.stream
                == WriteAt(old(outf.stream), old(outf.position), Bytes(first, 8) + Bytes(second, 8) + Bytes(third, 4))
  {
    WidthOfBytes(8);
    WidthOfBytes(4);
    WriteOn(outf.stream, outf.position, Bytes(first, 8), Bytes(second, 8));
    WriteOn(outf.stream, outf.position, Bytes(first, 8) + Bytes(second, 8), Bytes(third, 4));
    ok := outf.WriteNumber(first, 8);
    if ok {
      ok := outf.WriteNumber(second, 8);
      if ok {
        ok := outf.WriteNumber(third, 4);
      }
    }
  }

  method WriteHeader(outf: File, files: seq<Source>) returns (ok: bool)
    requires outf.position == 0
    modifies outf
    ensures ok <==> |files| < TWO32 && PoolSize(files) < TWO32
    ensures ok ==> outf.stream == WriteAt(old(outf.stream), 0, HeaderBytes(files))
  {
    var magic: seq<U8> := [0x50, 0x46, 0x53, 0x30];
    WidthOfBytes(4);
    WriteOn(outf.stream, 0, magic, Bytes(|files|, 4));
    WriteOn(outf.stream, 0, magic + Bytes(|files|, 4), Bytes(PoolSize(files), 4));
    outf.Write(magic);
    ok := outf.WriteNumber(|files|, 4);
    if ok {
      ok := outf.WriteNumber(PoolSize(files), 4);
    }
  }

  /** The entries loop. */
  method WriteFiles(outf: File, files: seq<Source>, offsets: map<string, nat>) returns (ok: bool)
    requires AllAscii(files) && Partial(outf.stream, files, 0) && OffsetsKept(offsets, files, |files|)
    modifies outf
    ensures ok <==> EntriesFit(files, |files|)
    ensures ok ==> Partial(outf.stream, files, |files|)
  {
    var entryDataOffset := DataStart(files);
    var i := 0;
    while i < |files|
      invariant i <= |files| && entryDataOffset == ContentStart(files, i)
      invariant Partial(outf.stream, files, i) && EntriesFit(files, i)
    {
      assert OffsetKept(offsets, files, i);
      ok, entryDataOffset := WriteFile(outf, files, i, offsets[files[i].name], entryDataOffset);
      if !ok {
        return;
      }
      i := i + 1;
    }
    ok := true;
  }

  /** One content, then its entry. */
  method WriteFile(outf: File, files: seq<Source>, i: nat, stringOffset: nat, entryDataOffset: nat)
    returns (ok: bool, next: nat)
    requires i < |files| && AllAscii(files) && Partial(outf.stream, files, i)
    requires stringOffset == NameOffset(files, i) && entryDataOffset == ContentStart(files, i)
    modifies outf
    ensures ok <==> EntryFits(files, i)
    ensures ok ==> Partial(outf.stream, files, i + 1) && next == ContentStart(files, i + 1)
  {
    ghost var was := outf.stream;
    outf.Seek(entryDataOffset);
    WriteContent(outf, files[i].content);
    ghost var mid := outf.stream;
    var entrySize := outf.position - entryDataOffset;
    outf.Seek(EntryStart(i));
    ok := WriteFields(outf, entryDataOffset - DataStart(files), entrySize, stringOffset);
    next := entryDataOffset + entrySize;
    if ok {
      ContentKeeps(was, mid, files, i);
      EntryCompletes(mid, outf.stream, files, i);
    }
  }

  /** Every character of every name is one of the 128 of ASCII. */
  predicate OnlyAscii(files: seq<Source>)
  {
    forall i, k :: 0 <= i < |files| && 0 <= k < |files[i].name| ==> files[i].name[k] as nat <= 0x7F
  }

  /** Counts and name offsets fit 32 bits, content offsets and sizes 64. */
  predicate NumbersFit(files: seq<Source>)
  {
    && |files| <= 0xFFFF_FFFF && PoolSize(files) <= 0xFFFF_FFFF
    && forall i :: 0 <= i < |files| ==> EntryNumbersFit(files, i)
  }

  predicate EntryNumbersFit(files: seq<Source>, i: nat)
    requires i < |files|
  {
    && NameOffset(files, i) <= 0xFFFF_FFFF
    && ContentOffset(files, i) <= 0xFFFF_FFFF_FFFF_FFFF && |files[i].content| <= 0xFFFF_FFFF_FFFF_FFFF
  }

  lemma AsciiExactlyWhen(files: seq<Source>)
    ensures AllAscii(files) <==> OnlyAscii(files)
  {
    if OnlyAscii(files) {
      forall i | 0 <= i < |files|
        ensures IsAscii(files[i].name)
      {
        assert forall k :: 0 <= k < |files[i].name| ==> files[i].name[k] as nat <= 0x7F;
      }
    }
    if AllAscii(files) {
      forall i, k | 0 <= i < |files| && 0 <= k < |files[i].name|
        ensures files[i].name[k] as nat <= 0x7F
      {
        assert IsAscii(files[i].name);
      }
    }
  }

  lemma NumbersExactlyWhen(files: seq<Source>)
    ensures |files| < TWO32 && PoolSize(files) < TWO32 && EntriesFit(files, |files|) <==> NumbersFit(files)
  {
    forall i | 0 <= i < |files|
      ensures EntryFits(files, i) <==> EntryNumbersFit(files, i)
    {
    }
  }

  lemma FitsExactlyWhen(files: seq<Source>)
    ensures Fits(files) <==> OnlyAscii(files) && NumbersFit(files)
  {
    AsciiExactlyWhen(files);
    NumbersExactlyWhen(files);
  }

  /** `main`. It fails on the first name that is not ASCII and the first number that does not fit
      the field it is written to. */
  method BuildPfs0(files: seq<Source>) returns (r: Option<seq<U8>>)
    requires DistinctNames(files)
    ensures r.Some? <==> Fits(files)
    ensures r.Some? <==> OnlyAscii(files) && NumbersFit(files)
    ensures r.Some? ==> IsImage(r.value, files)
  {
    FitsExactlyWhen(files);
    var outf := new File();
    outf.Seek(PoolStart(files));
    var ok, offsets := WriteNames(outf, files);
    if !ok {
      return None;
    }
    outf.Align(0x10);
    assert outf.position == DataStart(files);
    outf.Seek(0);
    ghost var was := outf.stream;
    ok := WriteHeader(outf, files);
    if !ok {
      return None;
    }
    HeaderKeepsNames(was, outf.stream, files);
    ok := WriteFiles(outf, files, offsets);
    r := if ok then Some(outf.stream) else None;
  }

  lemma HeaderKeepsNames(image: seq<U8>, after: seq<U8>, files: seq<Source>)
    requires AllAscii(files) && HoldsNames(image, files, |files|) && after == WriteAt(image, 0, HeaderBytes(files))
    ensures Partial(after, files, 0)
  {
    HoldsWritten(image, 0, HeaderBytes(files));
    forall i | 0 <= i < |files|
      ensures HoldsName(after, files, i)
    {
      KeepsNames(image, after, files, 0, HeaderBytes(files), i);
    }
  }

  // ----- reading back -----

  /** What a reader finds at `at`: past the end there is nothing. */
  function ReadAt(image: seq<U8>, at: nat, n: nat): seq<U8>
  {
    if at >= |image| then [] else if at + n <= |image| then image[at..at + n] else image[at..]
  }

  function ReadNumber(image: seq<U8>, at: nat, n: nat): nat { Word(ReadAt(image, at, n)) }

  /** The bytes up to a NUL. */
  function ReadName(image: seq<U8>, at: nat): seq<U8>
    decreases |image| - at
  {
    if at >= |image| || image[at] == 0 then [] else [image[at]] + ReadName(image, at + 1)
  }

  /** Entry `i`, through the recorded offsets and sizes alone. */
  function ReadEntry(image: seq<U8>, i: nat): (seq<U8>, seq<U8>)
  {
    var pool := 0x10 + 0x18 * ReadNumber(image, 4, 4);
    var data := pool + ReadNumber(image, 8, 4);
    var entry := 0x10 + 0x18 * i;
    (ReadName(image, pool + ReadNumber(image, entry + 16, 4)),
     ReadAt(image, data + ReadNumber(image, entry, 8), ReadNumber(image, entry + 8, 8)))
  }

  lemma HeldPart(image: seq<U8>, at: nat, a: seq<U8>, b: seq<U8>, c: seq<U8>)
    requires Holds(image, at, a + b + c)
    ensures ReadAt(image, at + |a|, |b|) == b
  {
    var all := a + b + c;
    if b != [] {
      var found := image[at + |a|..at + |a| + |b|];
      assert |image[at..at + |all|]| == |all|;
      forall k | 0 <= k < |b|
        ensures found[k] == b[k]
      {
        assert all[|a| + k] == b[k];
        assert image[at..at + |all|][|a| + k] == image[at + |a| + k];
      }
      assert found == b;
    }
  }

  lemma HeldNumber(image: seq<U8>, at: nat, a: seq<U8>, v: nat, n: nat, c: seq<U8>)
    requires Holds(image, at, a + Bytes(v, n) + c) && v < Pow2(8 * n)
    ensures ReadNumber(image, at + |a|, n) == v
  {
    HeldPart(image, at, a, Bytes(v, n), c);
    WordOfBytes(v, n);
  }

  lemma {:induction false} HeldName(image: seq<U8>, at: nat, name: seq<U8>)
    requires Holds(image, at, name + [0]) && 0 !in name
    ensures ReadName(image, at) == name
    decreases |name|
  {
    var all := image[at..at + |name| + 1];
    assert all == name + [0];
    if name == [] {
      assert image[at] == all[0] == 0;
    } else {
      assert image[at] == all[0] == name[0];
      assert image[at + 1..at + 1 + |name|] == all[1..] == name[1..] + [0];
      HeldName(image, at + 1, name[1..]);
    }
  }

  lemma HeaderReads(image: seq<U8>, files: seq<Source>)
    requires Fits(files) && IsImage(image, files)
    ensures ReadNumber(image, 4, 4) == |files| && ReadNumber(image, 8, 4) == PoolSize(files)
    ensures ReadAt(image, 0, 4) == [0x50, 0x46, 0x53, 0x30]
  {
    var magic: seq<U8> := [0x50, 0x46, 0x53, 0x30];
    WidthOfBytes(4);
    assert HeaderBytes(files) == magic + Bytes(|files|, 4) + Bytes(PoolSize(files), 4);
    assert HeaderBytes(files) == (magic + Bytes(|files|, 4)) + Bytes(PoolSize(files), 4) + [];
    HeldNumber(image, 0, magic, |files|, 4, Bytes(PoolSize(files), 4));
    assert HeaderBytes(files) == [] + magic + (Bytes(|files|, 4) + Bytes(PoolSize(files), 4));
    HeldPart(image, 0, [], magic, Bytes(|files|, 4) + Bytes(PoolSize(files), 4));
    HeldNumber(image, 0, magic + Bytes(|files|, 4), PoolSize(files), 4, []);
  }

  lemma EntryReads(image: seq<U8>, files: seq<Source>, i: nat)
    requires i < |files| && HoldsEntry(image, files, i)
    requires EntryFits(files, i)
    ensures ReadNumber(image, EntryStart(i), 8) == ContentOffset(files, i)
    ensures ReadNumber(image, EntryStart(i) + 8, 8) == |files[i].content|
    ensures ReadNumber(image, EntryStart(i) + 16, 4) == NameOffset(files, i)
  {
    FieldsRead(image, EntryStart(i), ContentOffset(files, i), |files[i].content|, NameOffset(files, i));
  }

  lemma FieldsRead(image: seq<U8>, at: nat, x: nat, y: nat, z: nat)
    requires Holds(image, at, Bytes(x, 8) + Bytes(y, 8) + Bytes(z, 4))
    requires x < TWO64 && y < TWO64 && z < TWO32
    ensures ReadNumber(image, at, 8) == x && ReadNumber(image, at + 8, 8) == y && ReadNumber(image, at + 16, 4) == z
  {
    WidthOfBytes(4);
    WidthOfBytes(8);
    FirstFields(image, at, Bytes(x, 8), Bytes(y, 8), Bytes(z, 4));
    HeldNumber(image, at, [], x, 8, Bytes(y, 8) + Bytes(z, 4));
    HeldNumber(image, at, Bytes(x, 8), y, 8, Bytes(z, 4));
    HeldNumber(image, at, Bytes(x, 8) + Bytes(y, 8), z, 4, []);
  }

  lemma FirstFields(image: seq<U8>, at: nat, a: seq<U8>, b: seq<U8>, c: seq<U8>)
    requires Holds(image, at, a + b + c)
    ensures Holds(image, at, [] + a + (b + c)) && Holds(image, at, (a + b) + c + [])
  {
    assert a + b + c == [] + a + (b + c);
    assert a + b + c == (a + b) + c + [];
  }

  lemma ImageHolds(image: seq<U8>, files: seq<Source>, i: nat)
    requires AllAscii(files) && IsImage(image, files) && i < |files|
    ensures HoldsEntry(image, files, i) && HoldsContent(image, files, i) && HoldsName(image, files, i)
  {
  }

  lemma NameReads(image: seq<U8>, files: seq<Source>, i: nat)
    requires i < |files| && IsAscii(files[i].name) && HoldsName(image, files, i)
    requires forall k :: 0 <= k < |files[i].name| ==> files[i].name[k] as nat != 0
    ensures ReadName(image, NameStart(files, i)) == NameBytes(files[i].name)
  {
    HeldName(image, NameStart(files, i), NameBytes(files[i].name));
  }

  lemma ContentReads(image: seq<U8>, files: seq<Source>, i: nat)
    requires i < |files| && HoldsContent(image, files, i)
    ensures ReadAt(image, ContentStart(files, i), |files[i].content|) == files[i].content
  {
    assert [] + files[i].content + [] == files[i].content;
    HeldPart(image, ContentStart(files, i), [], files[i].content, []);
  }

  lemma EntryOf(
    image: seq<U8>, i: nat, count: nat, poolSize: nat, name: nat, at: nat, size: nat, nameStart: nat, contentStart: nat)
    requires ReadNumber(image, 4, 4) == count && ReadNumber(image, 8, 4) == poolSize
    requires ReadNumber(image, EntryStart(i), 8) == at && ReadNumber(image, EntryStart(i) + 8, 8) == size
    requires ReadNumber(image, EntryStart(i) + 16, 4) == name
    requires nameStart == ENTRIES + ENTRY_SIZE * count + name
    requires contentStart == ENTRIES + ENTRY_SIZE * count + poolSize + at
    ensures ReadEntry(image, i) == (ReadName(image, nameStart), ReadAt(image, contentStart, size))
  {
  }

  lemma StartsAgree(files: seq<Source>, i: nat)
    requires i < |files|
    ensures NameStart(files, i) == ENTRIES + ENTRY_SIZE * |files| + NameOffset(files, i)
    ensures ContentStart(files, i) == ENTRIES + ENTRY_SIZE * |files| + PoolSize(files) + ContentOffset(files, i)
  {
  }

  /** Reading the image back, the magic "PFS0", the number of files, and every name and content in
      order through the offsets and sizes that its entries give. */
  lemma RoundTrip(image: seq<U8>, files: seq<Source>, i: nat)
    requires Fits(files) && IsImage(image, files) && i < |files|
    requires forall k :: 0 <= k < |files[i].name| ==> files[i].name[k] as nat != 0
    ensures ReadAt(image, 0, 4) == [0x50, 0x46, 0x53, 0x30] && ReadNumber(image, 4, 4) == |files|
    ensures ReadEntry(image, i) == (NameBytes(files[i].name), files[i].content)
  {
    HeaderReads(image, files);
    assert EntryFits(files, i);
    ImageHolds(image, files, i);
    EntryReads(image, files, i);
    StartsAgree(files, i);
    EntryOf(image, i, |files|, PoolSize(files), NameOffset(files, i), ContentOffset(files, i), |files[i].content|,
            NameStart(files, i), ContentStart(files, i));
    NameReads(image, files, i);
    ContentReads(image, files, i);
  }
}
