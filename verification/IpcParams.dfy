/** Packing the arguments of a request (`calcParamsSize`, `packInput` in hakkun/include/hk/sf/utils.h). */
module IpcParams {
  import opened Buffers
  import opened Words

  /** An argument: its bytes and the alignment of its type. */
  datatype Arg = Arg(bytes: seq<U8>, alignment: nat)

  ghost predicate Valid(args: seq<Arg>) { forall k :: 0 <= k < |args| ==> IsPow2(args[k].alignment) }

  /** Where the first `k` arguments end. */
  function End(args: seq<Arg>, k: nat): nat
    requires k <= |args| && forall j :: 0 <= j < |args| ==> args[j].alignment > 0
  {
    if k == 0 then 0 else AlignUp(End(args, k - 1), args[k - 1].alignment) + |args[k - 1].bytes|
  }

  function Offset(args: seq<Arg>, k: nat): nat
    requires k < |args| && forall j :: 0 <= j < |args| ==> args[j].alignment > 0
  {
    AlignUp(End(args, k), args[k].alignment)
  }

  function MaxAlign(args: seq<Arg>, k: nat): (m: nat)
    requires k <= |args|
    ensures m >= 1 && forall j :: 0 <= j < k ==> args[j].alignment <= m
    ensures m == 1 || exists j :: 0 <= j < k && args[j].alignment == m
  {
    if k == 0 then 1
    else if args[k - 1].alignment > MaxAlign(args, k - 1) then args[k - 1].alignment
    else MaxAlign(args, k - 1)
  }

  function Size(args: seq<Arg>): nat
    requires forall j :: 0 <= j < |args| ==> args[j].alignment > 0
  {
    AlignUp(End(args, |args|), MaxAlign(args, |args|))
  }

  method CalcParamsSize(args: seq<Arg>) returns (size: nat)
    requires forall j :: 0 <= j < |args| ==> args[j].alignment > 0
    ensures size == Size(args)
  {
    var totalSize, maxAlign := 0, 1;
    var i := 0;
    while i < |args|
      invariant i <= |args| && totalSize == End(args, i) && maxAlign == MaxAlign(args, i)
    {
      maxAlign := if maxAlign < args[i].alignment then args[i].alignment else maxAlign;
      totalSize := AlignUp(totalSize, args[i].alignment);
      totalSize := totalSize + |args[i].bytes|;
      i := i + 1;
    }
    size := AlignUp(totalSize, maxAlign);
  }

  /** The arguments laid into a zeroed array one after the other. */
  function Packed(args: seq<Arg>, k: nat, size: nat): seq<U8>
    requires k <= |args| && forall j :: 0 <= j < |args| ==> args[j].alignment > 0
  {
    if k == 0 then Zeros(size) else WriteAt(Packed(args, k - 1, size), Offset(args, k - 1), args[k - 1].bytes)
  }

  lemma MaxIsPow2(args: seq<Arg>, k: nat)
    requires Valid(args) && k <= |args|
    ensures IsPow2(MaxAlign(args, k))
  {
    assert Pow2(0) == 1;
  }

  /** Every argument starts at a multiple of its alignment, after the one before it has ended. */
  lemma OffsetFollows(args: seq<Arg>, k: nat)
    requires Valid(args) && k < |args|
    ensures Offset(args, k) % args[k].alignment == 0
    ensures End(args, k) <= Offset(args, k) && Offset(args, k) + |args[k].bytes| == End(args, k + 1)
  {
    AlignUpIsLeast(End(args, k), args[k].alignment);
  }

  lemma {:induction false} EndsGrow(args: seq<Arg>, j: nat, k: nat)
    requires Valid(args) && j <= k <= |args|
    ensures End(args, j) <= End(args, k)
    decreases k
  {
    if j < k {
      EndsGrow(args, j, k - 1);
      OffsetFollows(args, k - 1);
    }
  }

  /** Argument `k` is aligned and ends inside a buffer of `size` bytes. */
  ghost predicate FitsAt(args: seq<Arg>, k: nat, size: nat)
    requires Valid(args) && k < |args|
  {
    Offset(args, k) % args[k].alignment == 0 && Offset(args, k) + |args[k].bytes| <= size
  }

  ghost predicate Covers(args: seq<Arg>, size: nat)
    requires Valid(args)
  {
    forall k :: 0 <= k < |args| ==> FitsAt(args, k, size)
  }

  ghost predicate EndsBefore(args: seq<Arg>, j: nat, k: nat)
    requires Valid(args) && j < k < |args|
  {
    Offset(args, j) + |args[j].bytes| <= Offset(args, k)
  }

  lemma {:induction false} FitsInSize(args: seq<Arg>, k: nat)
    requires Valid(args) && k < |args|
    ensures FitsAt(args, k, Size(args))
  {
    OffsetFollows(args, k);
    EndsGrow(args, k + 1, |args|);
    MaxIsPow2(args, |args|);
    AlignUpIsLeast(End(args, |args|), MaxAlign(args, |args|));
  }

  lemma {:induction false} ComesBefore(args: seq<Arg>, j: nat, k: nat)
    requires Valid(args) && j < k < |args|
    ensures EndsBefore(args, j, k)
  {
    OffsetFollows(args, j);
    OffsetFollows(args, k);
    EndsGrow(args, j + 1, k);
  }

  lemma {:induction false} SizeIsLeast(args: seq<Arg>, m: nat)
    requires Valid(args) && m % MaxAlign(args, |args|) == 0 && Covers(args, m)
    ensures Size(args) <= m && Size(args) % MaxAlign(args, |args|) == 0
  {
    if |args| > 0 {
      OffsetFollows(args, |args| - 1);
      assert FitsAt(args, |args| - 1, m);
    }
    MaxIsPow2(args, |args|);
    AlignUpIsLeast(End(args, |args|), MaxAlign(args, |args|));
  }

  /** Every range is aligned and inside the size, no two overlap, and the size is the least
      multiple of the largest alignment that covers them all. */
  lemma {:induction false} LayoutIsTight(args: seq<Arg>)
    requires Valid(args)
    ensures Covers(args, Size(args)) && Size(args) % MaxAlign(args, |args|) == 0
    ensures forall m: nat :: m % MaxAlign(args, |args|) == 0 && Covers(args, m) ==> Size(args) <= m
    ensures forall j, k :: 0 <= j < k < |args| ==> EndsBefore(args, j, k)
  {
    forall k | 0 <= k < |args|
      ensures FitsAt(args, k, Size(args))
    {
      FitsInSize(args, k);
    }
    MaxIsPow2(args, |args|);
    AlignUpIsLeast(End(args, |args|), MaxAlign(args, |args|));
    forall m: nat | m % MaxAlign(args, |args|) == 0 && Covers(args, m)
      ensures Size(args) <= m
    {
      SizeIsLeast(args, m);
    }
    forall j, k | 0 <= j < k < |args|
      ensures EndsBefore(args, j, k)
    {
      ComesBefore(args, j, k);
    }
  }

  /** Each argument reads back from its offset. */
  lemma {:induction false} PackedHolds(args: seq<Arg>, n: nat, size: nat, k: nat)
    requires Valid(args) && k < n <= |args|
    ensures Holds(Packed(args, n, size), Offset(args, k), args[k].bytes)
    decreases n
  {
    var before := Packed(args, n - 1, size);
    if k == n - 1 {
      HoldsWritten(before, Offset(args, k), args[k].bytes);
    } else {
      PackedHolds(args, n - 1, size, k);
      ComesBefore(args, k, n - 1);
      StillHolds(before, Offset(args, n - 1), args[n - 1].bytes, Offset(args, k), args[k].bytes);
    }
  }

  lemma {:induction false} AllHold(args: seq<Arg>, size: nat, packed: seq<U8>)
    requires Valid(args) && packed == Packed(args, |args|, size)
    ensures forall k :: 0 <= k < |args| ==> Holds(packed, Offset(args, k), args[k].bytes)
  {
    forall k | 0 <= k < |args|
      ensures Holds(packed, Offset(args, k), args[k].bytes)
    {
      PackedHolds(args, |args|, size, k);
    }
  }

  lemma {:induction false} PackedStaysInside(args: seq<Arg>, n: nat)
    requires Valid(args) && n <= |args|
    ensures |Packed(args, n, Size(args))| == Size(args)
    ensures End(args, n) <= Size(args)
  {
    EndsGrow(args, n, |args|);
    MaxIsPow2(args, |args|);
    AlignUpIsLeast(End(args, |args|), MaxAlign(args, |args|));
    if n > 0 {
      PackedStaysInside(args, n - 1);
      OffsetFollows(args, n - 1);
    }
  }

  lemma {:induction false} StoreFits(args: seq<Arg>, i: nat)
    requires Valid(args) && i < |args|
    ensures Offset(args, i) + |args[i].bytes| <= Size(args)
  {
    OffsetFollows(args, i);
    PackedStaysInside(args, i + 1);
  }

  /** `packInput`: fills an array of exactly that size; no store leaves it, and reading at the
      offsets gives the arguments back. */
  method PackInput(args: seq<Arg>) returns (data: array<U8>)
    requires Valid(args)
    ensures fresh(data) && data.Length == Size(args)
    ensures data[..] == Packed(args, |args|, Size(args))
    ensures forall k :: 0 <= k < |args| ==> Holds(data[..], Offset(args, k), args[k].bytes)
  {
    var size := CalcParamsSize(args);
    data := new U8[size](_ => 0);
    assert data[..] == Zeros(size);
    var offset := 0;
    var i := 0;
    while i < |args|
      invariant i <= |args| && offset == End(args, i)
      invariant data[..] == Packed(args, i, size)
    {
      StoreFits(args, i);
      offset := AlignUp(offset, args[i].alignment);
      Store(data, offset, args[i].bytes);
      offset := offset + |args[i].bytes|;
      i := i + 1;
    }
    AllHold(args, size, data[..]);
  }

  method Store(data: array<U8>, offset: nat, bytes: seq<U8>)
    requires offset + |bytes| <= data.Length
    modifies data
    ensures data[..] == WriteAt(old(data[..]), offset, bytes)
  {
    var i := 0;
    while i < |bytes|
      invariant i <= |bytes|
      invariant forall k :: offset <= k < offset + i ==> data[k] == bytes[k - offset]
      invariant forall k :: 0 <= k < data.Length && !(offset <= k < offset + i) ==> data[k] == old(data[k])
    {
      data[offset + i] := bytes[i];
      i := i + 1;
    }
  }
}
