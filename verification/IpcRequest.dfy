/** Writing a request to the message buffer (`Request::writeToTls` in hakkun/include/hk/sf/sf.h,
    through hakkun/core/include/hk/util/Stream.h). */
module IpcRequest {
  import opened Buffers
  import opened Options
  import opened Words

  const TLS_BUFFER_SIZE: nat := 0x100
  const IN_HEADER_MAGIC: U32 := 0x49434653

  // ----- the stream -----

  datatype Piece = Put(bytes: seq<U8>) | Align(alignment: nat)

  /** Buffer and cursor; `None` once the program has aborted on a write or seek out of range. */
  datatype Cursor = Cursor(buffer: seq<U8>, at: nat)

  function Step(state: Option<Cursor>, piece: Piece): Option<Cursor>
    requires piece.Align? ==> piece.alignment > 0
  {
    if state.None? then None
    else
      var Cursor(buffer, at) := state.value;
      match piece
      case Put(bytes) =>
        if at + |bytes| > |buffer| then None else Some(Cursor(WriteAt(buffer, at, bytes), at + |bytes|))
      case Align(alignment) =>
        if AlignUp(at, alignment) > |buffer| then None else Some(Cursor(buffer, AlignUp(at, alignment)))
  }

  predicate Proper(plan: seq<Piece>) { forall k :: 0 <= k < |plan| ==> plan[k].Align? ==> plan[k].alignment > 0 }

  function Run(state: Option<Cursor>, plan: seq<Piece>): Option<Cursor>
    requires Proper(plan)
    decreases |plan|
  {
    if plan == [] then state else Run(Step(state, plan[0]), plan[1..])
  }

  lemma {:induction false} RunConcat(state: Option<Cursor>, a: seq<Piece>, b: seq<Piece>)
    requires Proper(a) && Proper(b)
    ensures Proper(a + b) && Run(state, a + b) == Run(Run(state, a), b)
    decreases |a|
  {
    if a == [] {
      assert a + b == b;
    } else {
      assert (a + b)[1..] == a[1..] + b;
      RunConcat(Step(state, a[0]), a[1..], b);
    }
  }

  class Stream {
    const buffer: array<U8>
    var cursor: nat
    var aborted: bool
    ghost const origin: Option<Cursor>
    ghost var written: seq<Piece>

    constructor (buffer: array<U8>)
      ensures this.buffer == buffer && written == [] && Valid() && origin == Some(Cursor(buffer[..], 0))
    {
      this.buffer, cursor, aborted, origin, written := buffer, 0, false, Some(Cursor(buffer[..], 0)), [];
    }

    /** The stream is where its pieces lead from where it began. */
    ghost predicate Valid()
      reads this, buffer
    {
      cursor <= buffer.Length && Proper(written) && State() == Run(origin, written)
    }

    ghost function State(): Option<Cursor>
      reads this, buffer
    {
      if aborted then None else Some(Cursor(buffer[..], cursor))
    }

    method Write(bytes: seq<U8>)
      requires Valid()
      modifies this, buffer
      ensures Valid() && written == old(written) + [Put(bytes)]
    {
      OneMore(origin, written, Put(bytes));
      PutBytes(bytes);
      written := written + [Put(bytes)];
    }

    method PutBytes(bytes: seq<U8>)
      requires cursor <= buffer.Length
      modifies this`cursor, this`aborted, buffer
      ensures cursor <= buffer.Length && State() == Step(old(State()), Put(bytes))
    {
      if aborted || cursor + |bytes| > buffer.Length {
        aborted := true;
        return;
      }
      var i := 0;
      while i < |bytes|
        invariant i <= |bytes| && !aborted && cursor == old(cursor)
        invariant forall k :: cursor <= k < cursor + i ==> buffer[k] == bytes[k - cursor]
        invariant forall k :: 0 <= k < buffer.Length && !(cursor <= k < cursor + i) ==> buffer[k] == old(buffer[k])
      {
        buffer[cursor + i] := bytes[i];
        i := i + 1;
      }
      assert buffer[..] == WriteAt(old(buffer[..]), cursor, bytes);
      cursor := cursor + |bytes|;
    }

    /** `seek(alignUp(tell(), alignment))`. */
    method SeekAligned(alignment: nat)
      requires Valid() && alignment > 0
      modifies this
      ensures Valid() && written == old(written) + [Align(alignment)]
    {
      OneMore(origin, written, Align(alignment));
      written := written + [Align(alignment)];
      if !aborted {
        var target := AlignUp(cursor, alignment);
        if target > buffer.Length {
          aborted := true;
        } else {
          cursor := target;
        }
      }
    }

    /** `writeIterator`: one write for each element, which is one write of all their bytes. */
    method WriteIterator(elements: seq<seq<U8>>)
      requires Valid()
      modifies this, buffer
      ensures Valid() && written == old(written) + [Put(Concat(elements))]
    {
      OneMore(origin, written, Put(Concat(elements)));
      ghost var was := State();
      var i := 0;
      while i < |elements|
        invariant i <= |elements| && cursor <= buffer.Length && written == old(written)
        invariant State() == Step(was, Put(Concat(elements[..i])))
      {
        ConcatMore(elements, i);
        PutTwice(was, Concat(elements[..i]), elements[i]);
        PutBytes(elements[i]);
        i := i + 1;
      }
      assert elements[..i] == elements;
      written := written + [Put(Concat(elements))];
    }
  }

  lemma OneMore(origin: Option<Cursor>, plan: seq<Piece>, piece: Piece)
    requires Proper(plan) && (piece.Align? ==> piece.alignment > 0)
    ensures Proper(plan + [piece]) && Run(origin, plan + [piece]) == Step(Run(origin, plan), piece)
  {
    RunConcat(origin, plan, [piece]);
    assert Run(Run(origin, plan), [piece]) == Step(Run(origin, plan), piece);
  }

  function Concat(elements: seq<seq<U8>>): seq<U8>
  {
    if elements == [] then [] else Concat(elements[..|elements| - 1]) + elements[|elements| - 1]
  }

  lemma ConcatMore(elements: seq<seq<U8>>, i: nat)
    requires i < |elements|
    ensures Concat(elements[..i + 1]) == Concat(elements[..i]) + elements[i]
  {
    assert elements[..i + 1][..i] == elements[..i];
  }

  lemma PutTwice(state: Option<Cursor>, a: seq<U8>, b: seq<U8>)
    ensures Step(Step(state, Put(a)), Put(b)) == Step(state, Put(a + b))
  {
    if state.Some? {
      WriteOn(state.value.buffer, state.value.at, a, b);
    }
  }

  // ----- requests -----

  datatype Request = Request(
    tag: U16, sendPid: bool, copyHandles: seq<U32>, moveHandles: seq<U32>,
    sendStatics: seq<seq<U8>>, sendBuffers: seq<seq<U8>>, recvBuffers: seq<seq<U8>>, exchBuffers: seq<seq<U8>>,
    recvStatics: nat, objects: seq<U32>, outPointerSizes: seq<U16>, data: seq<U8>,
    command: U32, token: U32, domainTag: U8)

  /** The service a request goes to: a domain when it has an object number. */
  datatype Service = Service(objectId: Option<U32>) {
    predicate IsDomain() { objectId.Some? }
  }

  /** What the containers of a request hold: at most eight elements each, descriptors of 8 and 12 bytes. */
  ghost predicate Valid(r: Request)
  {
    && |r.copyHandles| <= 8 && |r.moveHandles| <= 8 && |r.sendStatics| <= 8 && |r.sendBuffers| <= 8
    && |r.recvBuffers| <= 8 && |r.exchBuffers| <= 8 && r.recvStatics <= 8
    && |r.objects| <= 8 && |r.outPointerSizes| <= 8
    && AllOfSize(r.sendStatics, 8) && AllOfSize(r.sendBuffers, 12)
    && AllOfSize(r.recvBuffers, 12) && AllOfSize(r.exchBuffers, 12)
  }

  ghost predicate AllOfSize(elements: seq<seq<U8>>, n: nat) { forall k :: 0 <= k < |elements| ==> |elements[k]| == n }

  function Words32(values: seq<U32>): (r: seq<seq<U8>>)
    ensures |r| == |values| && forall k :: 0 <= k < |r| ==> |r[k]| == 4
  {
    seq(|values|, k requires 0 <= k < |values| => Bytes(values[k], 4))
  }

  function Words16(values: seq<U16>): (r: seq<seq<U8>>)
    ensures |r| == |values| && forall k :: 0 <= k < |r| ==> |r[k]| == 2
  {
    seq(|values|, k requires 0 <= k < |values| => Bytes(values[k], 2))
  }

  function Singles(data: seq<U8>): (r: seq<seq<U8>>)
    ensures |r| == |data| && forall k :: 0 <= k < |r| ==> |r[k]| == 1
  {
    seq(|data|, k requires 0 <= k < |data| => [data[k]])
  }

  function CmifDataSize(r: Request): nat { (16 + |r.data|) % TWO16 }

  /** `hipcDataSize`, a 16-bit sum. */
  function HipcDataSize(r: Request, s: Service): nat
  {
    var domain := if s.IsDomain() then 16 + 4 * |r.objects| else 0;
    var size := (16 + domain + CmifDataSize(r)) % TWO16;
    (AlignUp(size, 2) % TWO16 + 2 * |r.outPointerSizes|) % TWO16
  }

  /** `dataWords`, a 10-bit field. */
  function DataWords(r: Request, s: Service): nat { AlignUp(HipcDataSize(r, s), 4) % TWO16 / 4 % 1024 }

  predicate HasSpecialHeader(r: Request) { r.sendPid || r.copyHandles != [] || r.moveHandles != [] }

  function Flag(b: bool): nat { if b then 1 else 0 }

  /** The tag and the four descriptor counts, each a 4-bit field. */
  function FirstWord(r: Request): nat
  {
    r.tag + TWO16 * (|r.sendStatics| % 16 + 16 * (|r.sendBuffers| % 16)
      + 0x100 * (|r.recvBuffers| % 16) + 0x1000 * (|r.exchBuffers| % 16))
  }

  /** `recvStaticMode`, a 4-bit field. */
  function StaticMode(r: Request): nat { if r.recvStatics > 0 then (2 + r.recvStatics) % 16 else 0 }

  function HeaderBytes(r: Request, s: Service): (b: seq<U8>)
    ensures |b| == 8
  {
    Bytes(FirstWord(r), 4)
      + Bytes(DataWords(r, s) + 0x400 * StaticMode(r) + 0x8000_0000 * Flag(HasSpecialHeader(r)), 4)
  }

  function SpecialBytes(r: Request): (b: seq<U8>)
    ensures |b| == 4
  {
    Bytes(Flag(r.sendPid) + 2 * (|r.copyHandles| % 16) + 0x20 * (|r.moveHandles| % 16), 4)
  }

  function DomainBytes(r: Request, s: Service): (b: seq<U8>)
    requires s.IsDomain()
    ensures |b| == 16
  {
    Bytes(r.domainTag, 1) + Bytes(|r.objects|, 1) + Bytes(CmifDataSize(r), 2)
      + Bytes(s.objectId.value, 4) + Bytes(0, 4) + Bytes(r.token, 4)
  }

  /** The token goes in the domain header unless there is none; object number 0 counts as an object here. */
  function InHeaderBytes(r: Request, s: Service): (b: seq<U8>)
    ensures |b| == 16
  {
    Bytes(IN_HEADER_MAGIC, 4) + Bytes(0, 4) + Bytes(r.command, 4) + Bytes(if s.IsDomain() then 0 else r.token, 4)
  }

  function SpecialHeader(r: Request): (p: seq<Piece>)
    ensures Proper(p)
  {
    if HasSpecialHeader(r) then
      [Put(SpecialBytes(r))] + (if r.sendPid then [Put(Bytes(0, 8))] else [])
        + [Put(Concat(Words32(r.copyHandles)))] + [Put(Concat(Words32(r.moveHandles)))]
    else []
  }

  function Descriptors(r: Request, s: Service): (p: seq<Piece>)
    ensures Proper(p) && p != [] && p[0] == Put(HeaderBytes(r, s))
  {
    [Put(HeaderBytes(r, s))] + SpecialHeader(r)
      + [Put(Concat(r.sendStatics))] + [Put(Concat(r.sendBuffers))]
      + [Put(Concat(r.recvBuffers))] + [Put(Concat(r.exchBuffers))]
  }

  function Headers(r: Request, s: Service): (p: seq<Piece>)
    ensures Proper(p)
  {
    [Align(16)] + (if s.IsDomain() then [Put(DomainBytes(r, s))] else []) + [Put(InHeaderBytes(r, s))]
  }

  function Contents(r: Request, s: Service): (p: seq<Piece>)
    ensures Proper(p)
  {
    [Put(Concat(Singles(r.data)))] + [Align(4)] + (if s.IsDomain() then [Put(Concat(Words32(r.objects)))] else [])
      + [Align(2)] + [Put(Concat(Words16(r.outPointerSizes)))]
  }

  function Payload(r: Request, s: Service): (p: seq<Piece>)
    ensures Proper(p)
  {
    Headers(r, s) + Contents(r, s)
  }

  function Plan(r: Request, s: Service): (p: seq<Piece>)
    ensures Proper(p)
  {
    Descriptors(r, s) + Payload(r, s)
  }

  method WriteSpecialHeader(writer: Stream, r: Request)
    requires writer.Valid()
    modifies writer, writer.buffer
    ensures writer.Valid() && writer.written == old(writer.written) + SpecialHeader(r)
  {
    ghost var was := writer.written;
    if HasSpecialHeader(r) {
      writer.Write(SpecialBytes(r));
      if r.sendPid {
        writer.Write(Bytes(0, 8));
      }
      writer.WriteIterator(Words32(r.copyHandles));
      writer.WriteIterator(Words32(r.moveHandles));
    }
    assert writer.written == was + SpecialHeader(r);
  }

  method WriteDescriptors(writer: Stream, r: Request, s: Service)
    requires writer.Valid()
    modifies writer, writer.buffer
    ensures writer.Valid() && writer.written == old(writer.written) + Descriptors(r, s)
  {
    ghost var was := writer.written;
    writer.Write(HeaderBytes(r, s));
    WriteSpecialHeader(writer, r);
    writer.WriteIterator(r.sendStatics);
    writer.WriteIterator(r.sendBuffers);
    writer.WriteIterator(r.recvBuffers);
    writer.WriteIterator(r.exchBuffers);
    SixParts(was, [Put(HeaderBytes(r, s))], SpecialHeader(r), [Put(Concat(r.sendStatics))],
             [Put(Concat(r.sendBuffers))], [Put(Concat(r.recvBuffers))], [Put(Concat(r.exchBuffers))]);
  }

  lemma SixParts<X>(was: seq<X>, a: seq<X>, b: seq<X>, c: seq<X>, d: seq<X>, e: seq<X>, f: seq<X>)
    ensures was + a + b + c + d + e + f == was + (a + b + c + d + e + f)
  {
  }

  method WriteHeaders(writer: Stream, r: Request, s: Service)
    requires writer.Valid()
    modifies writer, writer.buffer
    ensures writer.Valid() && writer.written == old(writer.written) + Headers(r, s)
  {
    ghost var was := writer.written;
    writer.SeekAligned(16);
    if s.IsDomain() {
      writer.Write(DomainBytes(r, s));
    }
    writer.Write(InHeaderBytes(r, s));
    assert writer.written == was + Headers(r, s);
  }

  method WriteContents(writer: Stream, r: Request, s: Service)
    requires writer.Valid()
    modifies writer, writer.buffer
    ensures writer.Valid() && writer.written == old(writer.written) + Contents(r, s)
  {
    ghost var was := writer.written;
    writer.WriteIterator(Singles(r.data));
    writer.SeekAligned(4);
    if s.IsDomain() {
      writer.WriteIterator(Words32(r.objects));
    }
    writer.SeekAligned(2);
    writer.WriteIterator(Words16(r.outPointerSizes));
    assert writer.written == was + Contents(r, s);
  }

  lemma PlanParts(r: Request, s: Service)
    ensures [] + Descriptors(r, s) + Headers(r, s) + Contents(r, s) == Plan(r, s)
  {
  }

  ghost function Sent(r: Request, s: Service): Option<Cursor>
  {
    Run(Some(Cursor(Zeros(TLS_BUFFER_SIZE), 0)), Plan(r, s))
  }

  /** `writeToTls`: `ok` is false when the message does not fit and the program aborts. */
  method WriteToTls(r: Request, s: Service, buffer: array<U8>) returns (ok: bool, end: nat)
    requires buffer.Length == TLS_BUFFER_SIZE
    modifies buffer
    ensures ok == Sent(r, s).Some? && (ok ==> Sent(r, s).value == Cursor(buffer[..], end))
  {
    forall i | 0 <= i < buffer.Length {
      buffer[i] := 0;
    }
    assert buffer[..] == Zeros(TLS_BUFFER_SIZE);
    var writer := new Stream(buffer);
    WriteDescriptors(writer, r, s);
    WriteHeaders(writer, r, s);
    WriteContents(writer, r, s);
    PlanParts(r, s);
    assert writer.written == Plan(r, s);
    ok, end := !writer.aborted, writer.cursor;
  }

  // ----- positions -----

  function After(at: nat, piece: Piece): nat
    requires piece.Align? ==> piece.alignment > 0
  {
    match piece
    case Put(bytes) => at + |bytes|
    case Align(alignment) => AlignUp(at, alignment)
  }

  function EndFrom(at: nat, plan: seq<Piece>): nat
    requires Proper(plan)
    decreases |plan|
  {
    if plan == [] then at else EndFrom(After(at, plan[0]), plan[1..])
  }

  lemma {:induction false} EndConcat(at: nat, a: seq<Piece>, b: seq<Piece>)
    requires Proper(a) && Proper(b)
    ensures Proper(a + b) && EndFrom(at, a + b) == EndFrom(EndFrom(at, a), b)
    decreases |a|
  {
    if a == [] {
      assert a + b == b;
    } else {
      assert (a + b)[1..] == a[1..] + b;
      EndConcat(After(at, a[0]), a[1..], b);
    }
  }

  lemma {:induction false} Aborted(plan: seq<Piece>)
    requires Proper(plan)
    ensures Run(None, plan) == None
    decreases |plan|
  {
    if plan != [] {
      Aborted(plan[1..]);
    }
  }

  /** A run that does not abort ends where the pieces say, inside the buffer. */
  lemma {:induction false} RunEnds(state: Cursor, plan: seq<Piece>)
    requires Proper(plan) && state.at <= |state.buffer| && Run(Some(state), plan).Some?
    ensures var end := Run(Some(state), plan).value;
            end.at == EndFrom(state.at, plan) <= |state.buffer| && |end.buffer| == |state.buffer|
    decreases |plan|
  {
    if plan != [] {
      Aborted(plan[1..]);
      RunEnds(Step(Some(state), plan[0]).value, plan[1..]);
    }
  }

  lemma {:induction false} ConcatSize(elements: seq<seq<U8>>, n: nat)
    requires AllOfSize(elements, n)
    ensures |Concat(elements)| == |elements| * n
  {
    if elements != [] {
      ConcatSize(elements[..|elements| - 1], n);
      MulAddOne(|elements| - 1, n);
    }
  }

  function SpecialEnd(r: Request): nat
  {
    8 + if HasSpecialHeader(r) then 4 + (if r.sendPid then 8 else 0) + 4 * |r.copyHandles| + 4 * |r.moveHandles| else 0
  }

  function DescriptorEnd(r: Request): nat
  {
    SpecialEnd(r) + 8 * |r.sendStatics| + 12 * (|r.sendBuffers| + |r.recvBuffers| + |r.exchBuffers|)
  }

  lemma PutEnds(at: nat, plan: seq<Piece>, bytes: seq<U8>)
    requires Proper(plan)
    ensures Proper(plan + [Put(bytes)]) && EndFrom(at, plan + [Put(bytes)]) == EndFrom(at, plan) + |bytes|
  {
    EndConcat(at, plan, [Put(bytes)]);
    assert EndFrom(EndFrom(at, plan), [Put(bytes)]) == EndFrom(After(EndFrom(at, plan), Put(bytes)), []);
  }

  lemma SpecialEnds(r: Request, at: nat)
    ensures EndFrom(at, SpecialHeader(r)) == at + SpecialEnd(r) - 8
  {
    if HasSpecialHeader(r) {
      ConcatSize(Words32(r.copyHandles), 4);
      ConcatSize(Words32(r.moveHandles), 4);
      var first: seq<Piece> := [] + [Put(SpecialBytes(r))];
      PutEnds(at, [], SpecialBytes(r));
      var pid := first + if r.sendPid then [Put(Bytes(0, 8))] else [];
      if r.sendPid {
        PutEnds(at, first, Bytes(0, 8));
      } else {
        assert pid == first;
      }
      PutEnds(at, pid, Concat(Words32(r.copyHandles)));
      PutEnds(at, pid + [Put(Concat(Words32(r.copyHandles)))], Concat(Words32(r.moveHandles)));
      assert first == [Put(SpecialBytes(r))];
    }
  }

  lemma FourPutsEnd(at: nat, plan: seq<Piece>, a: seq<U8>, b: seq<U8>, c: seq<U8>, d: seq<U8>)
    requires Proper(plan)
    ensures Proper(plan + [Put(a)] + [Put(b)] + [Put(c)] + [Put(d)])
    ensures EndFrom(at, plan + [Put(a)] + [Put(b)] + [Put(c)] + [Put(d)]) == EndFrom(at, plan) + |a| + |b| + |c| + |d|
  {
    PutEnds(at, plan, a);
    PutEnds(at, plan + [Put(a)], b);
    PutEnds(at, plan + [Put(a)] + [Put(b)], c);
    PutEnds(at, plan + [Put(a)] + [Put(b)] + [Put(c)], d);
  }

  lemma HeaderEnds(r: Request, s: Service, at: nat)
    ensures EndFrom(at, [Put(HeaderBytes(r, s))] + SpecialHeader(r)) == at + SpecialEnd(r)
  {
    PutEnds(at, [], HeaderBytes(r, s));
    assert [] + [Put(HeaderBytes(r, s))] == [Put(HeaderBytes(r, s))];
    EndConcat(at, [Put(HeaderBytes(r, s))], SpecialHeader(r));
    SpecialEnds(r, at + 8);
  }

  lemma DescriptorsEnd(r: Request, s: Service, at: nat)
    requires Valid(r)
    ensures EndFrom(at, Descriptors(r, s)) == at + DescriptorEnd(r)
  {
    ConcatSize(r.sendStatics, 8);
    ConcatSize(r.sendBuffers, 12);
    ConcatSize(r.recvBuffers, 12);
    ConcatSize(r.exchBuffers, 12);
    HeaderEnds(r, s, at);
    FourPutsEnd(at, [Put(HeaderBytes(r, s))] + SpecialHeader(r),
                Concat(r.sendStatics), Concat(r.sendBuffers), Concat(r.recvBuffers), Concat(r.exchBuffers));
  }

  /** Descriptors come in whole words. */
  lemma DescriptorsAreWords(r: Request)
    ensures DescriptorEnd(r) % 4 == 0
  {
  }

  lemma AlignBounds(x: nat, a: nat)
    requires a == 2 || a == 4 || a == 16
    ensures x <= AlignUp(x, a) < x + a && AlignUp(x, a) % a == 0
  {
    assert Pow2(1) == 2 && Pow2(2) == 4 && Pow2(4) == 16;
    AlignUpIsLeast(x, a);
  }

  /** `up` is the least multiple of `a` from `x` on. */
  predicate IsAligned(up: nat, x: nat, a: nat)
    requires a > 0
  {
    x <= up < x + a && up % a == 0
  }

  lemma AlignEnds(at: nat, plan: seq<Piece>, alignment: nat)
    requires Proper(plan) && alignment > 0
    ensures Proper(plan + [Align(alignment)])
    ensures EndFrom(at, plan + [Align(alignment)]) == AlignUp(EndFrom(at, plan), alignment)
  {
    EndConcat(at, plan, [Align(alignment)]);
    assert EndFrom(EndFrom(at, plan), [Align(alignment)]) == EndFrom(After(EndFrom(at, plan), Align(alignment)), []);
  }

  lemma AlignPiece(at: nat, plan: seq<Piece>, a: nat) returns (up: nat)
    requires Proper(plan) && (a == 2 || a == 4 || a == 16)
    ensures Proper(plan + [Align(a)]) && EndFrom(at, plan + [Align(a)]) == up && IsAligned(up, EndFrom(at, plan), a)
  {
    AlignEnds(at, plan, a);
    up := AlignUp(EndFrom(at, plan), a);
    AlignBounds(EndFrom(at, plan), a);
  }

  function DomainHeaderSize(s: Service): nat { if s.IsDomain() then 16 else 0 }

  function ObjectsSize(r: Request, s: Service): nat { if s.IsDomain() then 4 * |r.objects| else 0 }

  lemma HeadersEnd(r: Request, s: Service, at: nat) returns (padded: nat)
    ensures IsAligned(padded, at, 16) && EndFrom(at, Headers(r, s)) == padded + DomainHeaderSize(s) + 16
  {
    var first: seq<Piece> := [] + [Align(16)];
    padded := AlignPiece(at, [], 16);
    assert first == [Align(16)];
    if s.IsDomain() {
      PutEnds(at, first, DomainBytes(r, s));
      PutEnds(at, first + [Put(DomainBytes(r, s))], InHeaderBytes(r, s));
    } else {
      assert first + [] == first;
      PutEnds(at, first, InHeaderBytes(r, s));
    }
  }

  lemma ContentsEnd(r: Request, s: Service, at: nat) returns (objectsAt: nat, sizesAt: nat)
    ensures IsAligned(objectsAt, at + |r.data|, 4) && IsAligned(sizesAt, objectsAt + ObjectsSize(r, s), 2)
    ensures EndFrom(at, Contents(r, s)) == sizesAt + 2 * |r.outPointerSizes|
  {
    ConcatSize(Singles(r.data), 1);
    ConcatSize(Words32(r.objects), 4);
    ConcatSize(Words16(r.outPointerSizes), 2);
    PutEnds(at, [], Concat(Singles(r.data)));
    var first: seq<Piece> := [] + [Put(Concat(Singles(r.data)))];
    assert first == [Put(Concat(Singles(r.data)))];
    objectsAt := AlignPiece(at, first, 4);
    var second := first + [Align(4)];
    var third := second + if s.IsDomain() then [Put(Concat(Words32(r.objects)))] else [];
    if s.IsDomain() {
      PutEnds(at, second, Concat(Words32(r.objects)));
    } else {
      assert third == second;
    }
    sizesAt := AlignPiece(at, third, 2);
    PutEnds(at, third + [Align(2)], Concat(Words16(r.outPointerSizes)));
  }

  /** The places inside a message: where its padding behind the descriptors, the payload data, and
      the payload objects end, each aligned, and where it ends itself. */
  datatype Places = Places(padded: nat, objectsAt: nat, sizesAt: nat, end: nat)

  predicate ArePlaces(r: Request, s: Service, at: nat, p: Places)
  {
    && IsAligned(p.padded, at, 16)
    && IsAligned(p.objectsAt, p.padded + DomainHeaderSize(s) + 16 + |r.data|, 4)
    && IsAligned(p.sizesAt, p.objectsAt + ObjectsSize(r, s), 2)
    && p.end == p.sizesAt + 2 * |r.outPointerSizes|
  }

  lemma ThreePartsEnd(at: nat, a: seq<Piece>, b: seq<Piece>, c: seq<Piece>, x: nat, y: nat)
    requires Proper(a) && Proper(b) && Proper(c) && EndFrom(at, a) == x && EndFrom(x, b) == y
    ensures Proper(a + (b + c)) && EndFrom(at, a + (b + c)) == EndFrom(y, c)
  {
    EndConcat(x, b, c);
    EndConcat(at, a, b + c);
  }

  lemma PlanEnds(r: Request, s: Service, at: nat) returns (p: Places)
    requires Valid(r)
    ensures ArePlaces(r, s, at + DescriptorEnd(r), p) && EndFrom(at, Plan(r, s)) == p.end
  {
    DescriptorsEnd(r, s, at);
    p := PlanEndsFrom(r, s, at, at + DescriptorEnd(r));
  }

  lemma PlanEndsFrom(r: Request, s: Service, at: nat, start: nat) returns (p: Places)
    requires EndFrom(at, Descriptors(r, s)) == start
    ensures ArePlaces(r, s, start, p) && EndFrom(at, Plan(r, s)) == p.end
  {
    var padded := HeadersEnd(r, s, start);
    PlanJoins(r, s, at, start, padded + DomainHeaderSize(s) + 16);
    p := PlacesFrom(r, s, start, padded);
  }

  lemma PlanJoins(r: Request, s: Service, at: nat, start: nat, behind: nat)
    requires EndFrom(at, Descriptors(r, s)) == start && EndFrom(start, Headers(r, s)) == behind
    ensures EndFrom(at, Plan(r, s)) == EndFrom(behind, Contents(r, s))
  {
    ThreePartsEnd(at, Descriptors(r, s), Headers(r, s), Contents(r, s), start, behind);
  }

  lemma PlacesFrom(r: Request, s: Service, at: nat, padded: nat) returns (p: Places)
    requires IsAligned(padded, at, 16)
    ensures ArePlaces(r, s, at, p) && p.padded == padded
    ensures EndFrom(padded + DomainHeaderSize(s) + 16, Contents(r, s)) == p.end
  {
    var objectsAt, sizesAt := ContentsEnd(r, s, padded + DomainHeaderSize(s) + 16);
    p := Places(padded, objectsAt, sizesAt, sizesAt + 2 * |r.outPointerSizes|);
  }

  /** Every message that does not abort has its places inside the buffer. */
  lemma MessageEnds(r: Request, s: Service, start: Cursor, sent: Option<Cursor>) returns (p: Places)
    requires Valid(r) && start.at <= |start.buffer| && sent == Run(Some(start), Plan(r, s)) && sent.Some?
    ensures ArePlaces(r, s, start.at + DescriptorEnd(r), p)
    ensures sent.value.at == p.end <= |start.buffer| && |sent.value.buffer| == |start.buffer|
  {
    RunEnds(start, Plan(r, s));
    p := PlanEnds(r, s, start.at);
  }

  /** The 16-bit sums and the 10-bit field lose nothing on sizes this small. */
  lemma NothingWraps(r: Request, s: Service) returns (even: nat)
    requires |r.data| <= TLS_BUFFER_SIZE && |r.outPointerSizes| <= 8 && |r.objects| <= 8
    ensures IsAligned(even, 32 + DomainHeaderSize(s) + ObjectsSize(r, s) + |r.data|, 2)
    ensures IsAligned(4 * DataWords(r, s), even + 2 * |r.outPointerSizes|, 4)
  {
    var size := 32 + DomainHeaderSize(s) + ObjectsSize(r, s) + |r.data|;
    AlignBounds(size, 2);
    even := AlignUp(size, 2);
    HipcIs(r, s, size, even);
    AlignBounds(HipcDataSize(r, s), 4);
    FieldKeeps(AlignUp(HipcDataSize(r, s), 4));
  }

  lemma HipcIs(r: Request, s: Service, size: nat, even: nat)
    requires size == 32 + DomainHeaderSize(s) + ObjectsSize(r, s) + |r.data| < 1000
    requires even == AlignUp(size, 2) && even <= size + 1 && |r.outPointerSizes| <= 8
    ensures HipcDataSize(r, s) == even + 2 * |r.outPointerSizes|
  {
    Small(16 + |r.data|);
    HipcSum(16 + (if s.IsDomain() then 16 + 4 * |r.objects| else 0) + CmifDataSize(r), size, even, |r.outPointerSizes|);
  }

  lemma HipcSum(sum: nat, size: nat, even: nat, pointers: nat)
    requires sum == size < 1000 && even == AlignUp(size, 2) && even <= size + 1 && pointers <= 8
    ensures (AlignUp(sum % TWO16, 2) % TWO16 + 2 * pointers) % TWO16 == even + 2 * pointers
  {
    Small(size);
    Small(even);
    assert AlignUp(sum % TWO16, 2) % TWO16 == even;
    Small(even + 2 * pointers);
  }

  lemma Small(x: nat)
    requires x < TWO16
    ensures x % TWO16 == x
  {
  }

  lemma FieldKeeps(words: nat)
    requires words < 1024 && words % 4 == 0
    ensures 4 * (words % TWO16 / 4 % 1024) == words
  {
    Small(words);
  }

  /** The padding behind the descriptors is at most 12 of the 16 bytes reserved for it, and what
      the alignments inside the payload cost is within the 4 bytes left over. */
  lemma PaddedSizes(r: Request, s: Service, at: nat, p: Places, even: nat, declared: nat)
    requires at % 4 == 0 && ArePlaces(r, s, at, p)
    requires IsAligned(even, 32 + DomainHeaderSize(s) + ObjectsSize(r, s) + |r.data|, 2)
    requires IsAligned(declared, even + 2 * |r.outPointerSizes|, 4)
    ensures at <= p.end <= at + declared
  {
  }

  /** The bytes written after the descriptors, padding included, never pass the declared data
      words, for every request that fits the buffer. */
  lemma PayloadFitsDeclaredWords(r: Request, s: Service)
    requires Valid(r) && Sent(r, s).Some?
    ensures DescriptorEnd(r) % 4 == 0
    ensures DescriptorEnd(r) <= Sent(r, s).value.at <= DescriptorEnd(r) + 4 * DataWords(r, s)
  {
    var p := MessageEnds(r, s, Cursor(Zeros(TLS_BUFFER_SIZE), 0), Sent(r, s));
    DescriptorsAreWords(r);
    var even := NothingWraps(r, s);
    PaddedSizes(r, s, DescriptorEnd(r), p, even, 4 * DataWords(r, s));
  }
}
