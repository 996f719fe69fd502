/** What the receiver of a request reads from the message buffer, field by field at the places the
    formats of hakkun/include/hk/sf/hipc.h and hakkun/include/hk/sf/cmif.h give them. */
module IpcReceive {
  import opened Buffers
  import opened IpcRequest
  import opened Options
  import opened Words

  // ----- every piece of a message is at its place -----

  /** Later pieces never overwrite what is before the cursor. */
  lemma {:induction false} StaysWritten(state: Cursor, plan: seq<Piece>, at: nat, bytes: seq<U8>)
    requires Proper(plan) && Run(Some(state), plan).Some?
    requires Holds(state.buffer, at, bytes) && at + |bytes| <= state.at
    ensures Holds(Run(Some(state), plan).value.buffer, at, bytes)
    decreases |plan|
  {
    if plan != [] {
      Aborted(plan[1..]);
      var next := Step(Some(state), plan[0]).value;
      if plan[0].Put? {
        StillHolds(state.buffer, state.at, plan[0].bytes, at, bytes);
      } else {
        AlignNotBelow(state.at, plan[0].alignment);
      }
      StaysWritten(next, plan[1..], at, bytes);
    }
  }

  lemma AlignNotBelow(x: nat, a: nat)
    requires a > 0
    ensures x <= AlignUp(x, a)
  {
    AndAtMost(x + a - 1, a - 1);
  }

  /** Every piece that is put is in the buffer, at the place the pieces before it lead to. */
  ghost predicate HoldsPlan(buffer: seq<U8>, at: nat, plan: seq<Piece>)
    requires Proper(plan)
    decreases |plan|
  {
    plan == [] ||
    ((plan[0].Put? ==> Holds(buffer, at, plan[0].bytes)) && HoldsPlan(buffer, After(at, plan[0]), plan[1..]))
  }

  lemma {:induction false} RunHolds(state: Cursor, plan: seq<Piece>)
    requires Proper(plan) && state.at <= |state.buffer| && Run(Some(state), plan).Some?
    ensures HoldsPlan(Run(Some(state), plan).value.buffer, state.at, plan)
    decreases |plan|
  {
    if plan != [] {
      Aborted(plan[1..]);
      var next := Step(Some(state), plan[0]).value;
      if plan[0].Put? {
        HoldsWritten(state.buffer, state.at, plan[0].bytes);
        StaysWritten(next, plan[1..], state.at, plan[0].bytes);
      }
      RunHolds(next, plan[1..]);
    }
  }

  lemma {:induction false} Split(
    buffer: seq<U8>, at: nat, plan: seq<Piece>, a: seq<Piece>, b: seq<Piece>, mid: nat)
    requires Proper(plan) && Proper(a) && Proper(b) && plan == a + b
    requires HoldsPlan(buffer, at, plan) && EndFrom(at, a) == mid
    ensures HoldsPlan(buffer, at, a) && HoldsPlan(buffer, mid, b)
    decreases |a|
  {
    if a == [] {
      assert plan == b;
    } else {
      FirstOf(plan, a, b);
      Split(buffer, After(at, a[0]), plan[1..], a[1..], b, mid);
    }
  }

  lemma FirstOf(plan: seq<Piece>, a: seq<Piece>, b: seq<Piece>)
    requires a != [] && plan == a + b && Proper(plan)
    ensures plan[0] == a[0] && plan[1..] == a[1..] + b && Proper(plan[1..])
  {
  }

  /** The last piece put, and what is before it. */
  lemma SplitPut(buffer: seq<U8>, at: nat, plan: seq<Piece>, a: seq<Piece>, bytes: seq<U8>, mid: nat)
    requires Proper(plan) && Proper(a) && plan == a + [Put(bytes)]
    requires HoldsPlan(buffer, at, plan) && EndFrom(at, a) == mid
    ensures HoldsPlan(buffer, at, a) && Holds(buffer, mid, bytes)
  {
    Split(buffer, at, plan, a, [Put(bytes)], mid);
    assert HoldsPlan(buffer, mid, [Put(bytes)]);
  }

  lemma {:induction false} SinglesConcat(data: seq<U8>)
    ensures Concat(Singles(data)) == data
  {
    if data != [] {
      SinglesConcat(data[..|data| - 1]);
      assert Singles(data)[..|data| - 1] == Singles(data[..|data| - 1]);
    }
  }

  // ----- reading fields -----

  /** The number of `n` bytes at `at`. */
  predicate Field(buffer: seq<U8>, at: nat, n: nat, v: nat)
  {
    at + n <= |buffer| && ReadWord(buffer, at, n) == v
  }

  /** Numbers of `n` bytes one after the other. */
  predicate Fields(buffer: seq<U8>, at: nat, n: nat, values: seq<nat>)
    decreases |values|
  {
    values == [] || (Field(buffer, at, n, values[0]) && Fields(buffer, at + n, n, values[1..]))
  }

  /** Byte strings of `n` bytes one after the other. */
  predicate Items(buffer: seq<U8>, at: nat, n: nat, items: seq<seq<U8>>)
    decreases |items|
  {
    items == [] ||
    (at + n <= |buffer| && buffer[at..at + n] == items[0] && Items(buffer, at + n, n, items[1..]))
  }

  lemma HoldsField(buffer: seq<U8>, at: nat, a: seq<U8>, n: nat, v: nat, c: seq<U8>)
    requires n > 0 && v < Pow2(8 * n) && Holds(buffer, at, a + Bytes(v, n) + c)
    ensures Field(buffer, at + |a|, n, v)
  {
    var all := a + Bytes(v, n) + c;
    var part := buffer[at..at + |all|];
    assert |all| == |a| + n + |c| && part == all;
    assert part[|a|..|a| + n] == Bytes(v, n);
    SliceOfSlice(buffer, at, |all|, |a|, n);
    WordOfBytes(v, n);
  }

  lemma SliceOfSlice<T>(s: seq<T>, at: nat, size: nat, x: nat, n: nat)
    requires at + size <= |s| && x + n <= size
    ensures s[at..at + size][x..x + n] == s[at + x..at + x + n]
  {
    var inner, outer := s[at..at + size][x..x + n], s[at + x..at + x + n];
    forall k | 0 <= k < n
      ensures inner[k] == outer[k]
    {
      assert s[at..at + size][x + k] == s[at + x + k];
    }
    assert inner == outer;
  }

  lemma {:induction false} ConcatHead(items: seq<seq<U8>>)
    requires items != []
    ensures Concat(items) == items[0] + Concat(items[1..])
  {
    if |items| > 1 {
      var front, last := items[..|items| - 1], items[|items| - 1];
      ConcatHead(front);
      assert front[1..] == items[1..][..|items| - 2];
      assert Concat(items[1..]) == Concat(front[1..]) + last;
    }
  }

  lemma {:induction false} HoldsItems(buffer: seq<U8>, at: nat, n: nat, items: seq<seq<U8>>)
    requires n > 0 && AllOfSize(items, n) && Holds(buffer, at, Concat(items))
    ensures Items(buffer, at, n, items)
    decreases |items|
  {
    if items != [] {
      ConcatHead(items);
      HoldsBoth(buffer, at, items[0], Concat(items[1..]));
      HoldsItems(buffer, at + n, n, items[1..]);
    }
  }

  lemma HoldsBoth(buffer: seq<U8>, at: nat, a: seq<U8>, b: seq<U8>)
    requires a != [] && Holds(buffer, at, a + b)
    ensures at + |a| <= |buffer| && buffer[at..at + |a|] == a && Holds(buffer, at + |a|, b)
  {
    var size := |a| + |b|;
    assert (a + b)[..|a|] == a && (a + b)[|a|..] == b;
    assert buffer[at..at + size][..|a|] == buffer[at..at + |a|];
    assert buffer[at..at + size][|a|..] == buffer[at + |a|..at + size];
  }

  lemma {:induction false} ItemsAreFields(buffer: seq<U8>, at: nat, n: nat, items: seq<seq<U8>>, values: seq<nat>)
    requires Items(buffer, at, n, items) && |items| == |values|
    requires forall k :: 0 <= k < |values| ==> values[k] < Pow2(8 * n) && items[k] == Bytes(values[k], n)
    ensures Fields(buffer, at, n, values)
    decreases |values|
  {
    if values != [] {
      WordOfBytes(values[0], n);
      ItemsAreFields(buffer, at + n, n, items[1..], values[1..]);
    }
  }

  lemma HoldsWords32(buffer: seq<U8>, at: nat, values: seq<U32>)
    requires Holds(buffer, at, Concat(Words32(values)))
    ensures Fields(buffer, at, 4, values)
  {
    WidthOfBytes(4);
    HoldsItems(buffer, at, 4, Words32(values));
    ItemsAreFields(buffer, at, 4, Words32(values), values);
  }

  lemma HoldsWords16(buffer: seq<U8>, at: nat, values: seq<U16>)
    requires Holds(buffer, at, Concat(Words16(values)))
    ensures Fields(buffer, at, 2, values)
  {
    TwoBytes(2);
    HoldsItems(buffer, at, 2, Words16(values));
    ItemsAreFields(buffer, at, 2, Words16(values), values);
  }

  lemma TwoBytes(n: nat)
    requires n == 2
    ensures Pow2(8 * n) == TWO16
  {
    EightBits(8);
    Pow2Adds(8, 8);
  }

  // ----- the places -----

  /** Where the parts of a message begin, and where it ends. */
  datatype Layout = Layout(
    copies: nat, moves: nat, statics: nat, sends: nat, receives: nat, exchanges: nat,
    headers: nat, data: nat, objects: nat, sizes: nat, end: nat)

  /** The message carries a special header. */
  predicate Special(r: Request) { r.sendPid || |r.copyHandles| > 0 || |r.moveHandles| > 0 }

  /** Handles and descriptors follow each other. */
  predicate InRow(r: Request, l: Layout)
  {
    && l.copies == (if r.sendPid then 20 else 12) && l.moves == l.copies + 4 * |r.copyHandles|
    && l.statics == (if Special(r) then l.moves + 4 * |r.moveHandles| else 8)
    && l.sends == l.statics + 8 * |r.sendStatics|
    && l.receives == l.sends + 12 * |r.sendBuffers|
    && l.exchanges == l.receives + 12 * |r.recvBuffers|
  }

  /** Behind them come the headers at a multiple of 16, the data, the objects at one of 4 and the
      pointer sizes at one of 2. */
  predicate IsLayout(r: Request, s: Service, l: Layout)
  {
    && InRow(r, l)
    && IsAligned(l.headers, l.exchanges + 12 * |r.exchBuffers|, 16)
    && l.data == l.headers + (if s.objectId.Some? then 32 else 16)
    && IsAligned(l.objects, l.data + |r.data|, 4)
    && IsAligned(l.sizes, l.objects + (if s.objectId.Some? then 4 * |r.objects| else 0), 2)
    && l.end == l.sizes + 2 * |r.outPointerSizes|
  }

  // ----- what is there -----

  /** Tag and descriptor counts; data words, static mode and the flag of the special header. */
  predicate ReadsHeader(buffer: seq<U8>, r: Request, dataWords: nat)
    requires |buffer| >= 8
  {
    var first, second := ReadWord(buffer, 0, 4), ReadWord(buffer, 4, 4);
    && first % 0x1_0000 == r.tag
    && first / 0x1_0000 % 16 == |r.sendStatics| && first / 0x10_0000 % 16 == |r.sendBuffers|
    && first / 0x100_0000 % 16 == |r.recvBuffers| && first / 0x1000_0000 == |r.exchBuffers|
    && second % 0x400 == dataWords
    && second / 0x400 % 16 == (if r.recvStatics > 0 then 2 + r.recvStatics else 0)
    && second / 0x4000 == (if Special(r) then 0x2_0000 else 0)
  }

  /** Process-id flag, handle counts, an empty process id and the handles. */
  predicate ReadsSpecial(buffer: seq<U8>, r: Request, l: Layout)
    requires |buffer| >= 12
  {
    var word := ReadWord(buffer, 8, 4);
    && word % 2 == (if r.sendPid then 1 else 0)
    && word / 2 % 16 == |r.copyHandles| && word / 0x20 == |r.moveHandles|
    && (r.sendPid ==> Field(buffer, 12, 8, 0))
    && Fields(buffer, l.copies, 4, r.copyHandles) && Fields(buffer, l.moves, 4, r.moveHandles)
  }

  predicate ReadsDescriptors(buffer: seq<U8>, r: Request, l: Layout)
  {
    && Items(buffer, l.statics, 8, r.sendStatics) && Items(buffer, l.sends, 12, r.sendBuffers)
    && Items(buffer, l.receives, 12, r.recvBuffers) && Items(buffer, l.exchanges, 12, r.exchBuffers)
  }

  /** Tag, object count, size of header and data, object number, padding and token. */
  predicate ReadsDomainHeader(buffer: seq<U8>, r: Request, objectId: U32, at: nat)
  {
    && Field(buffer, at, 1, r.domainTag) && Field(buffer, at + 1, 1, |r.objects|)
    && Field(buffer, at + 2, 2, 16 + |r.data|) && Field(buffer, at + 4, 4, objectId)
    && Field(buffer, at + 8, 4, 0) && Field(buffer, at + 12, 4, r.token)
  }

  /** Magic "SFCI", version, command, and the token unless the domain header has it. */
  predicate ReadsInHeader(buffer: seq<U8>, r: Request, s: Service, at: nat)
  {
    && Field(buffer, at, 4, 0x4943_4653) && Field(buffer, at + 4, 4, 0)
    && Field(buffer, at + 8, 4, r.command) && Field(buffer, at + 12, 4, if s.objectId.Some? then 0 else r.token)
  }

  predicate ReadsPayload(buffer: seq<U8>, r: Request, s: Service, l: Layout)
  {
    && (s.objectId.Some? ==> ReadsDomainHeader(buffer, r, s.objectId.value, l.headers))
    && l.data >= 16 && ReadsInHeader(buffer, r, s, l.data - 16)
    && l.data + |r.data| <= |buffer| && buffer[l.data..l.data + |r.data|] == r.data
    && (s.objectId.Some? ==> Fields(buffer, l.objects, 4, r.objects))
    && Fields(buffer, l.sizes, 2, r.outPointerSizes)
  }

  // ----- reading a message -----

  lemma FieldsOf(a: nat, b: nat, c: nat, d: nat, e: nat, word: nat)
    requires a < 0x1_0000 && b < 16 && c < 16 && d < 16 && e < 16
    requires word == a + 0x1_0000 * b + 0x10_0000 * c + 0x100_0000 * d + 0x1000_0000 * e
    ensures word < TWO32 && word % 0x1_0000 == a && word / 0x1_0000 % 16 == b && word / 0x10_0000 % 16 == c
    ensures word / 0x100_0000 % 16 == d && word / 0x1000_0000 == e
  {
    DivModUnique(word, 0x1_0000, b + 16 * c + 0x100 * d + 0x1000 * e, a);
    DivModUnique(word / 0x1_0000, 16, c + 16 * d + 0x100 * e, b);
    DivModUnique(word, 0x10_0000, c + 16 * d + 0x100 * e, a + 0x1_0000 * b);
    DivModUnique(word / 0x10_0000, 16, d + 16 * e, c);
    DivModUnique(word, 0x100_0000, d + 16 * e, a + 0x1_0000 * b + 0x10_0000 * c);
    DivModUnique(word / 0x100_0000, 16, e, d);
    DivModUnique(word, 0x1000_0000, e, a + 0x1_0000 * b + 0x10_0000 * c + 0x100_0000 * d);
  }

  lemma SecondFields(a: nat, b: nat, c: nat, word: nat)
    requires a < 0x400 && b < 16 && c < 2 && word == a + 0x400 * b + 0x8000_0000 * c
    ensures word < TWO32 && word % 0x400 == a && word / 0x400 % 16 == b && word / 0x4000 == 0x2_0000 * c
  {
    DivModUnique(word, 0x400, b + 0x20_0000 * c, a);
    DivModUnique(word / 0x400, 16, 0x2_0000 * c, b);
    DivModUnique(word, 0x4000, 0x2_0000 * c, a + 0x400 * b);
  }

  lemma SpecialFields(a: nat, b: nat, c: nat, word: nat)
    requires a < 2 && b < 16 && c < 16 && word == a + 2 * b + 0x20 * c
    ensures word < TWO32 && word % 2 == a && word / 2 % 16 == b && word / 0x20 == c
  {
    DivModUnique(word, 2, b + 16 * c, a);
    DivModUnique(word / 2, 16, c, b);
    DivModUnique(word, 0x20, c, a + 2 * b);
  }

  lemma Nibble(x: nat)
    requires x < 16
    ensures x % 16 == x
  {
  }

  lemma FourNibbles(a: nat, b: nat, c: nat, d: nat)
    requires a < 16 && b < 16 && c < 16 && d < 16
    ensures a % 16 + 16 * (b % 16) + 0x100 * (c % 16) + 0x1000 * (d % 16) == a + 16 * b + 0x100 * c + 0x1000 * d
  {
    Nibble(a);
    Nibble(b);
    Nibble(c);
    Nibble(d);
  }

  lemma TwoWords(buffer: seq<U8>, at: nat, bytes: seq<U8>, first: nat, second: nat)
    requires bytes == Bytes(first, 4) + Bytes(second, 4) && first < TWO32 && second < TWO32 && Holds(buffer, at, bytes)
    ensures Field(buffer, at, 4, first) && Field(buffer, at + 4, 4, second)
  {
    WidthOfBytes(4);
    assert bytes == [] + Bytes(first, 4) + Bytes(second, 4) == Bytes(first, 4) + Bytes(second, 4) + [];
    HoldsField(buffer, at, [], 4, first, Bytes(second, 4));
    HoldsField(buffer, at, Bytes(first, 4), 4, second, []);
  }

  lemma FirstWordIs(r: Request) returns (first: nat)
    requires Valid(r)
    ensures first == FirstWord(r)
    ensures first == r.tag + 0x1_0000 * |r.sendStatics| + 0x10_0000 * |r.sendBuffers|
                     + 0x100_0000 * |r.recvBuffers| + 0x1000_0000 * |r.exchBuffers|
  {
    first := FirstWord(r);
    FourNibbles(|r.sendStatics|, |r.sendBuffers|, |r.recvBuffers|, |r.exchBuffers|);
  }

  lemma StaticModeIs(r: Request) returns (mode: nat)
    requires r.recvStatics <= 8
    ensures mode == StaticMode(r) == (if r.recvStatics > 0 then 2 + r.recvStatics else 0)
  {
    mode := if r.recvStatics > 0 then 2 + r.recvStatics else 0;
    Nibble(mode);
  }

  lemma HeaderReads(buffer: seq<U8>, r: Request, s: Service)
    requires Valid(r) && |buffer| >= 8 && Holds(buffer, 0, HeaderBytes(r, s))
    ensures ReadsHeader(buffer, r, DataWords(r, s))
  {
    var first := FirstWordIs(r);
    var mode := StaticModeIs(r);
    var flag := Flag(HasSpecialHeader(r));
    var second := DataWords(r, s) + 0x400 * mode + 0x8000_0000 * flag;
    FieldsOf(r.tag, |r.sendStatics|, |r.sendBuffers|, |r.recvBuffers|, |r.exchBuffers|, first);
    SecondFields(DataWords(r, s), mode, flag, second);
    TwoWords(buffer, 0, HeaderBytes(r, s), first, second);
  }

  lemma SpecialReads(buffer: seq<U8>, r: Request, l: Layout)
    requires Valid(r) && |buffer| >= 12 && HasSpecialHeader(r) && HoldsPlan(buffer, 8, SpecialHeader(r))
    requires l.copies == (if r.sendPid then 20 else 12) && l.moves == l.copies + 4 * |r.copyHandles|
    ensures ReadsSpecial(buffer, r, l)
  {
    var first := [Put(SpecialBytes(r))];
    var pid := first + if r.sendPid then [Put(Bytes(0, 8))] else [];
    var copies := pid + [Put(Concat(Words32(r.copyHandles)))];
    SpecialPlaces(r, first, pid, copies, l);
    SplitPut(buffer, 8, SpecialHeader(r), copies, Concat(Words32(r.moveHandles)), l.moves);
    SplitPut(buffer, 8, copies, pid, Concat(Words32(r.copyHandles)), l.copies);
    HoldsWords32(buffer, l.moves, r.moveHandles);
    HoldsWords32(buffer, l.copies, r.copyHandles);
    PidReads(buffer, r, first, pid);
    SpecialWord(buffer, r);
  }

  lemma SpecialPlaces(r: Request, first: seq<Piece>, pid: seq<Piece>, copies: seq<Piece>, l: Layout)
    requires HasSpecialHeader(r) && first == [Put(SpecialBytes(r))]
    requires pid == first + if r.sendPid then [Put(Bytes(0, 8))] else []
    requires copies == pid + [Put(Concat(Words32(r.copyHandles)))]
    requires l.copies == (if r.sendPid then 20 else 12) && l.moves == l.copies + 4 * |r.copyHandles|
    ensures SpecialHeader(r) == copies + [Put(Concat(Words32(r.moveHandles)))]
    ensures Proper(pid) && EndFrom(8, pid) == l.copies && Proper(copies) && EndFrom(8, copies) == l.moves
  {
    ConcatSize(Words32(r.copyHandles), 4);
    assert first == [] + [Put(SpecialBytes(r))];
    PutEnds(8, [], SpecialBytes(r));
    if r.sendPid {
      PutEnds(8, first, Bytes(0, 8));
    } else {
      assert pid == first;
    }
    PutEnds(8, pid, Concat(Words32(r.copyHandles)));
  }

  lemma PidReads(buffer: seq<U8>, r: Request, first: seq<Piece>, pid: seq<Piece>)
    requires first == [Put(SpecialBytes(r))] && pid == first + if r.sendPid then [Put(Bytes(0, 8))] else []
    requires Proper(pid) && HoldsPlan(buffer, 8, pid)
    ensures Holds(buffer, 8, SpecialBytes(r))
    ensures r.sendPid ==> Field(buffer, 12, 8, 0)
  {
    assert first == [] + [Put(SpecialBytes(r))];
    PutEnds(8, [], SpecialBytes(r));
    if r.sendPid {
      SplitPut(buffer, 8, pid, first, Bytes(0, 8), 12);
      WidthOfBytes(8);
      assert Bytes(0, 8) == [] + Bytes(0, 8) + [];
      HoldsField(buffer, 12, [], 8, 0, []);
    } else {
      assert pid == first;
    }
    assert HoldsPlan(buffer, 8, first);
  }

  lemma SpecialWord(buffer: seq<U8>, r: Request)
    requires Valid(r) && |buffer| >= 12 && Holds(buffer, 8, SpecialBytes(r))
    ensures var word := ReadWord(buffer, 8, 4);
            && word % 2 == (if r.sendPid then 1 else 0)
            && word / 2 % 16 == |r.copyHandles| && word / 0x20 == |r.moveHandles|
  {
    Nibble(|r.copyHandles|);
    Nibble(|r.moveHandles|);
    var word := Flag(r.sendPid) + 2 * |r.copyHandles| + 0x20 * |r.moveHandles|;
    SpecialFields(Flag(r.sendPid), |r.copyHandles|, |r.moveHandles|, word);
    WidthOfBytes(4);
    assert SpecialBytes(r) == [] + Bytes(word, 4) + [];
    HoldsField(buffer, 8, [], 4, word, []);
  }

  // ----- descriptors -----

  /** A sequence of pieces and four puts behind it. */
  lemma FourPuts(
    buffer: seq<U8>, plan: seq<Piece>, first: seq<Piece>, a: seq<U8>, b: seq<U8>, c: seq<U8>, d: seq<U8>,
    aAt: nat, bAt: nat, cAt: nat, dAt: nat)
    requires plan == first + [Put(a)] + [Put(b)] + [Put(c)] + [Put(d)] && Proper(first) && Proper(plan)
    requires HoldsPlan(buffer, 0, plan) && EndFrom(0, first) == aAt
    requires aAt + |a| == bAt && bAt + |b| == cAt && cAt + |c| == dAt
    ensures HoldsPlan(buffer, 0, first) && Holds(buffer, aAt, a) && Holds(buffer, bAt, b)
    ensures Holds(buffer, cAt, c) && Holds(buffer, dAt, d)
  {
    var p1 := first + [Put(a)];
    var p2 := p1 + [Put(b)];
    var p3 := p2 + [Put(c)];
    PutEnds(0, first, a);
    PutEnds(0, p1, b);
    PutEnds(0, p2, c);
    SplitPut(buffer, 0, plan, p3, d, dAt);
    SplitPut(buffer, 0, p3, p2, c, cAt);
    SplitPut(buffer, 0, p2, p1, b, bAt);
    SplitPut(buffer, 0, p1, first, a, aAt);
  }

  lemma DescriptorsRead(buffer: seq<U8>, r: Request, s: Service, l: Layout)
    requires Valid(r) && InRow(r, l) && HoldsPlan(buffer, 0, Descriptors(r, s))
    ensures ReadsDescriptors(buffer, r, l)
    ensures HoldsPlan(buffer, 0, [Put(HeaderBytes(r, s))] + SpecialHeader(r))
  {
    var first, plan, a, b, c, d := DescriptorParts(r, s);
    DescriptorPlaces(r, l);
    FourPuts(buffer, plan, first, a, b, c, d, l.statics, l.sends, l.receives, l.exchanges);
    DescriptorsHeld(buffer, r, l);
  }

  lemma DescriptorParts(r: Request, s: Service)
      returns (first: seq<Piece>, plan: seq<Piece>, a: seq<U8>, b: seq<U8>, c: seq<U8>, d: seq<U8>)
    ensures a == Concat(r.sendStatics) && b == Concat(r.sendBuffers)
    ensures c == Concat(r.recvBuffers) && d == Concat(r.exchBuffers)
    ensures first == [Put(HeaderBytes(r, s))] + SpecialHeader(r) && plan == Descriptors(r, s)
    ensures Proper(first) && Proper(plan) && EndFrom(0, first) == SpecialEnd(r)
    ensures plan == first + [Put(a)] + [Put(b)] + [Put(c)] + [Put(d)]
  {
    a, b, c, d := Concat(r.sendStatics), Concat(r.sendBuffers), Concat(r.recvBuffers), Concat(r.exchBuffers);
    first, plan := [Put(HeaderBytes(r, s))] + SpecialHeader(r), Descriptors(r, s);
    HeaderEnds(r, s, 0);
  }

  lemma DescriptorsHeld(buffer: seq<U8>, r: Request, l: Layout)
    requires Valid(r)
    requires Holds(buffer, l.statics, Concat(r.sendStatics)) && Holds(buffer, l.sends, Concat(r.sendBuffers))
    requires Holds(buffer, l.receives, Concat(r.recvBuffers)) && Holds(buffer, l.exchanges, Concat(r.exchBuffers))
    ensures ReadsDescriptors(buffer, r, l)
  {
    HoldsItems(buffer, l.statics, 8, r.sendStatics);
    HoldsItems(buffer, l.sends, 12, r.sendBuffers);
    HoldsItems(buffer, l.receives, 12, r.recvBuffers);
    HoldsItems(buffer, l.exchanges, 12, r.exchBuffers);
  }

  lemma DescriptorPlaces(r: Request, l: Layout)
    requires Valid(r) && InRow(r, l)
    ensures SpecialEnd(r) == l.statics && l.statics + |Concat(r.sendStatics)| == l.sends
    ensures l.sends + |Concat(r.sendBuffers)| == l.receives && l.receives + |Concat(r.recvBuffers)| == l.exchanges
  {
    ConcatSize(r.sendStatics, 8);
    ConcatSize(r.sendBuffers, 12);
    ConcatSize(r.recvBuffers, 12);
  }

  lemma FirstPieces(buffer: seq<U8>, r: Request, s: Service)
    requires HoldsPlan(buffer, 0, [Put(HeaderBytes(r, s))] + SpecialHeader(r))
    ensures Holds(buffer, 0, HeaderBytes(r, s)) && HoldsPlan(buffer, 8, SpecialHeader(r))
  {
    var first := [Put(HeaderBytes(r, s))];
    assert first == [] + [Put(HeaderBytes(r, s))];
    PutEnds(0, [], HeaderBytes(r, s));
    Split(buffer, 0, first + SpecialHeader(r), first, SpecialHeader(r), 8);
    assert HoldsPlan(buffer, 0, first);
  }

  // ----- headers and payload -----

  /** The first field, and what is behind it. */
  lemma NextField(buffer: seq<U8>, at: nat, n: nat, v: nat, rest: seq<U8>)
    requires n > 0 && v < Pow2(8 * n) && Holds(buffer, at, Bytes(v, n) + rest)
    ensures Field(buffer, at, n, v) && Holds(buffer, at + n, rest)
  {
    HoldsBoth(buffer, at, Bytes(v, n), rest);
    WordOfBytes(v, n);
  }

  lemma DomainHeaderReads(buffer: seq<U8>, r: Request, s: Service, at: nat)
    requires Valid(r) && s.IsDomain() && 16 + |r.data| < TWO16 && Holds(buffer, at, DomainBytes(r, s))
    ensures ReadsDomainHeader(buffer, r, s.objectId.value, at)
  {
    var a, b, c := Bytes(r.domainTag, 1), Bytes(|r.objects|, 1), Bytes(CmifDataSize(r), 2);
    var d, e, f := Bytes(s.objectId.value, 4), Bytes(0, 4), Bytes(r.token, 4);
    SixNest(DomainBytes(r, s), a, b, c, d, e, f);
    ShortFields(buffer, at, r.domainTag, |r.objects|, CmifDataSize(r), d + (e + f));
    assert f == f + [];
    LongFields(buffer, at + 4, s.objectId.value, 0, r.token, []);
  }

  /** Two bytes and a 16-bit number. */
  lemma ShortFields(buffer: seq<U8>, at: nat, x: U8, y: U8, z: U16, rest: seq<U8>)
    requires Holds(buffer, at, Bytes(x, 1) + (Bytes(y, 1) + (Bytes(z, 2) + rest)))
    ensures Field(buffer, at, 1, x) && Field(buffer, at + 1, 1, y) && Field(buffer, at + 2, 2, z)
    ensures Holds(buffer, at + 4, rest)
  {
    TwoBytes(2);
    EightBits(8);
    NextField(buffer, at, 1, x, Bytes(y, 1) + (Bytes(z, 2) + rest));
    NextField(buffer, at + 1, 1, y, Bytes(z, 2) + rest);
    NextField(buffer, at + 2, 2, z, rest);
  }

  /** Three 32-bit numbers. */
  lemma LongFields(buffer: seq<U8>, at: nat, x: U32, y: U32, z: U32, rest: seq<U8>)
    requires Holds(buffer, at, Bytes(x, 4) + (Bytes(y, 4) + (Bytes(z, 4) + rest)))
    ensures Field(buffer, at, 4, x) && Field(buffer, at + 4, 4, y) && Field(buffer, at + 8, 4, z)
    ensures Holds(buffer, at + 12, rest)
  {
    WidthOfBytes(4);
    NextField(buffer, at, 4, x, Bytes(y, 4) + (Bytes(z, 4) + rest));
    NextField(buffer, at + 4, 4, y, Bytes(z, 4) + rest);
    NextField(buffer, at + 8, 4, z, rest);
  }

  lemma SixNest<X>(all: seq<X>, a: seq<X>, b: seq<X>, c: seq<X>, d: seq<X>, e: seq<X>, f: seq<X>)
    requires all == a + b + c + d + e + f
    ensures all == a + (b + (c + (d + (e + f))))
  {
  }

  lemma InHeaderReads(buffer: seq<U8>, r: Request, s: Service, at: nat)
    requires Holds(buffer, at, InHeaderBytes(r, s))
    ensures ReadsInHeader(buffer, r, s, at)
  {
    WidthOfBytes(4);
    var token := if s.IsDomain() then 0 else r.token;
    var a, b, c, d := Bytes(IN_HEADER_MAGIC, 4), Bytes(0, 4), Bytes(r.command, 4), Bytes(token, 4);
    FourNest(InHeaderBytes(r, s), a, b, c, d);
    LongFields(buffer, at, IN_HEADER_MAGIC, 0, r.command, d);
    assert d == d + [];
    NextField(buffer, at + 12, 4, token, []);
  }

  lemma FourNest<X>(all: seq<X>, a: seq<X>, b: seq<X>, c: seq<X>, d: seq<X>)
    requires all == a + b + c + d
    ensures all == a + (b + (c + d))
  {
  }

  lemma HeadersRead(buffer: seq<U8>, r: Request, s: Service, at: nat, headers: nat)
    requires Valid(r) && 16 + |r.data| < TWO16 && HoldsPlan(buffer, at, Headers(r, s))
    requires IsAligned(headers, at, 16)
    ensures s.IsDomain() ==> ReadsDomainHeader(buffer, r, s.objectId.value, headers)
    ensures ReadsInHeader(buffer, r, s, headers + DomainHeaderSize(s))
  {
    var first: seq<Piece> := [] + [Align(16)];
    var padded := AlignPiece(at, [], 16);
    SameMultiple(padded, headers, at, 16);
    assert first == [Align(16)];
    if s.IsDomain() {
      var second := first + [Put(DomainBytes(r, s))];
      PutEnds(at, first, DomainBytes(r, s));
      assert Headers(r, s) == second + [Put(InHeaderBytes(r, s))];
      SplitPut(buffer, at, Headers(r, s), second, InHeaderBytes(r, s), headers + 16);
      SplitPut(buffer, at, second, first, DomainBytes(r, s), headers);
      DomainHeaderReads(buffer, r, s, headers);
      InHeaderReads(buffer, r, s, headers + 16);
    } else {
      assert Headers(r, s) == first + [Put(InHeaderBytes(r, s))];
      SplitPut(buffer, at, Headers(r, s), first, InHeaderBytes(r, s), headers);
      InHeaderReads(buffer, r, s, headers);
    }
  }

  /** There is one multiple of `a` in `a` numbers. */
  lemma SameMultiple(x: nat, y: nat, at: nat, a: nat)
    requires a > 0 && IsAligned(x, at, a) && IsAligned(y, at, a)
    ensures x == y
  {
    if x < y {
      MultiplesApart(x, y, a);
    } else if y < x {
      MultiplesApart(y, x, a);
    }
  }

  /** The parts of the contents, and where each ends. */
  lemma ContentsParts(r: Request, s: Service, at: nat, objectsAt: nat, sizesAt: nat)
      returns (first: seq<Piece>, second: seq<Piece>, third: seq<Piece>, fourth: seq<Piece>)
    requires IsAligned(objectsAt, at + |r.data|, 4) && IsAligned(sizesAt, objectsAt + ObjectsSize(r, s), 2)
    ensures first == [] + [Put(Concat(Singles(r.data)))] && second == first + [Align(4)]
    ensures third == second + if s.IsDomain() then [Put(Concat(Words32(r.objects)))] else []
    ensures fourth == third + [Align(2)] && Contents(r, s) == fourth + [Put(Concat(Words16(r.outPointerSizes)))]
    ensures Proper(first) && Proper(second) && Proper(third) && Proper(fourth)
    ensures EndFrom(at, second) == objectsAt && EndFrom(at, fourth) == sizesAt
  {
    ConcatSize(Singles(r.data), 1);
    ConcatSize(Words32(r.objects), 4);
    first := [] + [Put(Concat(Singles(r.data)))];
    PutEnds(at, [], Concat(Singles(r.data)));
    second := first + [Align(4)];
    var up := AlignPiece(at, first, 4);
    SameMultiple(up, objectsAt, at + |r.data|, 4);
    third := second + if s.IsDomain() then [Put(Concat(Words32(r.objects)))] else [];
    if s.IsDomain() {
      PutEnds(at, second, Concat(Words32(r.objects)));
    } else {
      assert third == second;
    }
    fourth := third + [Align(2)];
    up := AlignPiece(at, third, 2);
    SameMultiple(up, sizesAt, objectsAt + ObjectsSize(r, s), 2);
    assert first == [Put(Concat(Singles(r.data)))];
  }

  lemma ContentsRead(buffer: seq<U8>, r: Request, s: Service, at: nat, objectsAt: nat, sizesAt: nat)
    requires HoldsPlan(buffer, at, Contents(r, s))
    requires IsAligned(objectsAt, at + |r.data|, 4) && IsAligned(sizesAt, objectsAt + ObjectsSize(r, s), 2)
    ensures Holds(buffer, at, r.data)
    ensures s.IsDomain() ==> Fields(buffer, objectsAt, 4, r.objects)
    ensures Fields(buffer, sizesAt, 2, r.outPointerSizes)
  {
    var first, second, third, fourth := ContentsParts(r, s, at, objectsAt, sizesAt);
    SplitPut(buffer, at, Contents(r, s), fourth, Concat(Words16(r.outPointerSizes)), sizesAt);
    HoldsWords16(buffer, sizesAt, r.outPointerSizes);
    Split(buffer, at, fourth, third, [Align(2)], EndFrom(at, third));
    if s.IsDomain() {
      SplitPut(buffer, at, third, second, Concat(Words32(r.objects)), objectsAt);
      HoldsWords32(buffer, objectsAt, r.objects);
    } else {
      assert third == second;
    }
    Split(buffer, at, second, first, [Align(4)], EndFrom(at, first));
    SplitPut(buffer, at, first, [], Concat(Singles(r.data)), at);
    SinglesConcat(r.data);
  }

  /** A message splits into its three parts, each where the one before it ends. */
  lemma ThreeParts(buffer: seq<U8>, r: Request, s: Service, mid: nat, behind: nat)
    requires HoldsPlan(buffer, 0, Plan(r, s))
    requires EndFrom(0, Descriptors(r, s)) == mid && EndFrom(mid, Headers(r, s)) == behind
    ensures HoldsPlan(buffer, 0, Descriptors(r, s)) && HoldsPlan(buffer, mid, Headers(r, s))
    ensures HoldsPlan(buffer, behind, Contents(r, s))
  {
    Split(buffer, 0, Plan(r, s), Descriptors(r, s), Payload(r, s), mid);
    Split(buffer, mid, Payload(r, s), Headers(r, s), Contents(r, s), behind);
  }

  // ----- the message -----

  lemma {:induction false} EndGrows(at: nat, plan: seq<Piece>)
    requires Proper(plan)
    ensures at <= EndFrom(at, plan)
    decreases |plan|
  {
    if plan != [] {
      if plan[0].Align? {
        AlignNotBelow(at, plan[0].alignment);
      }
      EndGrows(After(at, plan[0]), plan[1..]);
    }
  }

  /** A run aborts if and only if its pieces lead out of the buffer. */
  lemma {:induction false} RunsExactlyWhen(state: Cursor, plan: seq<Piece>)
    requires Proper(plan) && state.at <= |state.buffer|
    ensures Run(Some(state), plan).Some? <==> EndFrom(state.at, plan) <= |state.buffer|
    decreases |plan|
  {
    if plan != [] {
      Aborted(plan[1..]);
      EndGrows(After(state.at, plan[0]), plan[1..]);
      var next := Step(Some(state), plan[0]);
      if next.Some? {
        RunsExactlyWhen(next.value, plan[1..]);
      }
    }
  }

  /** The places of a message; it is sent if and only if they end inside the buffer, and aborts
      otherwise. */
  lemma MessageFits(r: Request, s: Service) returns (l: Layout)
    requires Valid(r)
    ensures IsLayout(r, s, l) && l.exchanges + 12 * |r.exchBuffers| == DescriptorEnd(r)
    ensures Sent(r, s).Some? <==> l.end <= 0x100
    ensures Sent(r, s).Some? ==> Sent(r, s).value.at == l.end && |Sent(r, s).value.buffer| == 0x100
  {
    var start := Cursor(Zeros(TLS_BUFFER_SIZE), 0);
    var p := PlanEnds(r, s, 0);
    RunsExactlyWhen(start, Plan(r, s));
    if Sent(r, s).Some? {
      RunEnds(start, Plan(r, s));
    }
    var copies := if r.sendPid then 20 else 12;
    var moves := copies + 4 * |r.copyHandles|;
    var statics := if Special(r) then moves + 4 * |r.moveHandles| else 8;
    var sends := statics + 8 * |r.sendStatics|;
    var receives := sends + 12 * |r.sendBuffers|;
    l := Layout(copies, moves, statics, sends, receives, receives + 12 * |r.recvBuffers|,
                p.padded, p.padded + DomainHeaderSize(s) + 16, p.objectsAt, p.sizesAt, p.end);
  }

  lemma PartsHeld(buffer: seq<U8>, r: Request, s: Service, l: Layout, mid: nat)
    requires Valid(r) && mid == DescriptorEnd(r) && IsAligned(l.headers, mid, 16)
    requires l.data == l.headers + DomainHeaderSize(s) + 16 && HoldsPlan(buffer, 0, Plan(r, s))
    ensures HoldsPlan(buffer, 0, Descriptors(r, s)) && HoldsPlan(buffer, mid, Headers(r, s))
    ensures HoldsPlan(buffer, l.data, Contents(r, s))
  {
    DescriptorsEnd(r, s, 0);
    var padded := HeadersEnd(r, s, mid);
    SameMultiple(padded, l.headers, mid, 16);
    ThreeParts(buffer, r, s, mid, l.data);
  }

  lemma PayloadReads(buffer: seq<U8>, r: Request, s: Service, l: Layout, mid: nat)
    requires Valid(r) && |r.data| <= |buffer| == TLS_BUFFER_SIZE && l.data + |r.data| <= |buffer|
    requires IsAligned(l.headers, mid, 16) && l.data == l.headers + DomainHeaderSize(s) + 16
    requires IsAligned(l.objects, l.data + |r.data|, 4) && IsAligned(l.sizes, l.objects + ObjectsSize(r, s), 2)
    requires HoldsPlan(buffer, mid, Headers(r, s)) && HoldsPlan(buffer, l.data, Contents(r, s))
    ensures ReadsPayload(buffer, r, s, l)
  {
    HeadersRead(buffer, r, s, mid, l.headers);
    ContentsRead(buffer, r, s, l.data, l.objects, l.sizes);
  }

  /** What a receiver reads from the buffer of every request that fits it: each field of the headers
      and everything a request carries, in order, at the places of the layout, with the declared
      data words counting what the alignments leave of the payload. */
  lemma ReceiverReads(r: Request, s: Service) returns (l: Layout, buffer: seq<U8>, even: nat, dataWords: nat)
    requires Valid(r) && Sent(r, s).Some?
    ensures buffer == Sent(r, s).value.buffer && |buffer| == 0x100
    ensures IsLayout(r, s, l) && Sent(r, s).value.at == l.end <= |buffer|
    ensures ReadsHeader(buffer, r, dataWords)
    ensures Special(r) ==> ReadsSpecial(buffer, r, l)
    ensures ReadsDescriptors(buffer, r, l) && ReadsPayload(buffer, r, s, l)
    ensures IsAligned(even, (if s.objectId.Some? then 48 + 4 * |r.objects| else 32) + |r.data|, 2)
    ensures IsAligned(4 * dataWords, even + 2 * |r.outPointerSizes|, 4)
  {
    l := MessageFits(r, s);
    buffer, dataWords := Sent(r, s).value.buffer, DataWords(r, s);
    even := NothingWraps(r, s);
    RunHolds(Cursor(Zeros(TLS_BUFFER_SIZE), 0), Plan(r, s));
    PartsHeld(buffer, r, s, l, DescriptorEnd(r));
    DescriptorsRead(buffer, r, s, l);
    FirstPieces(buffer, r, s);
    HeaderReads(buffer, r, s);
    if Special(r) {
      SpecialReads(buffer, r, l);
    }
    PayloadReads(buffer, r, s, l, DescriptorEnd(r));
  }
}
