/** Finding the loaded modules in the memory map (`forEachAutoLoadModuleImpl` in
    hakkun/include/hk/ro/RoUtil.h). */
module MemoryScan {
  import opened Options

  datatype Permission = ReadExecute | Read | ReadWrite | Nothing

  datatype Region = Region(base: nat, size: nat, free: bool, permission: Permission)

  datatype Outcome = Success | QueryFailed | UnusualSectionLayout

  /** One callback: where text, read-only data and writable data start. */
  datatype Bases = Bases(text: nat, rodata: nat, data: nat)

  datatype Found = Found(rc: Outcome, calls: seq<Bases>)

  /** Regions are not empty and follow one another. */
  ghost predicate IsMap(regions: seq<Region>)
  {
    && (forall k :: 0 <= k < |regions| ==> regions[k].size > 0)
    && (forall j, k :: 0 <= j < k < |regions| && k == j + 1 ==> regions[k].base == regions[j].base + regions[j].size)
  }

  /** The memory query: the region an address lies in, none outside the map. */
  function Query(regions: seq<Region>, address: nat): (k: Option<nat>)
    ensures k.Some? ==>
              k.value < |regions| && regions[k.value].base <= address < regions[k.value].base + regions[k.value].size
    ensures k.None? ==>
              forall j :: 0 <= j < |regions| ==> !(regions[j].base <= address < regions[j].base + regions[j].size)
  {
    if regions == [] then None
    else
      var last := |regions| - 1;
      if regions[last].base <= address < regions[last].base + regions[last].size then Some(last)
      else Query(regions[..last], address)
  }

  lemma {:induction false} LaterAbove(regions: seq<Region>, j: nat, k: nat)
    requires IsMap(regions) && j < k < |regions|
    ensures regions[j].base + regions[j].size <= regions[k].base
    decreases k - j
  {
    if j + 1 < k {
      LaterAbove(regions, j + 1, k);
    }
  }

  function IndexOrNone(regions: seq<Region>, k: int): Option<nat> { if 0 <= k < |regions| then Some(k) else None }

  /** An address lies in one region only. */
  lemma QueryIn(regions: seq<Region>, k: nat, address: nat)
    requires IsMap(regions) && k < |regions| && regions[k].base <= address < regions[k].base + regions[k].size
    ensures Query(regions, address) == Some(k)
  {
    var found := Query(regions, address);
    if found.value < k {
      LaterAbove(regions, found.value, k);
    } else if k < found.value {
      LaterAbove(regions, k, found.value);
    }
  }

  /** The address after region `k` lies in region `k + 1`. */
  lemma QueryNext(regions: seq<Region>, k: nat)
    requires IsMap(regions) && k < |regions|
    ensures Query(regions, regions[k].base + regions[k].size) == IndexOrNone(regions, k + 1)
  {
    var address := regions[k].base + regions[k].size;
    if k + 1 < |regions| {
      QueryIn(regions, k + 1, address);
    } else {
      var found := Query(regions, address);
      if found.Some? && found.value < k {
        LaterAbove(regions, found.value, k);
      }
    }
  }

  /** First region from `k` on that is not read-only, or the end of the map. */
  function AfterReadOnly(regions: seq<Region>, k: nat): (d: nat)
    requires k <= |regions|
    ensures k <= d <= |regions|
    ensures forall j :: k <= j < d ==> regions[j].permission == Read
    ensures d < |regions| ==> regions[d].permission != Read
    decreases |regions| - k
  {
    if k == |regions| || regions[k].permission != Read then k else AfterReadOnly(regions, k + 1)
  }

  /** One round of the scan: it ends, or calls back for a module whose last region is `last`. */
  datatype Round = Done(rc: Outcome) | Module(bases: Bases, last: nat)

  function RoundAt(regions: seq<Region>, k: nat): (r: Round)
    requires k <= |regions|
    ensures r.Module? ==> k < r.last < |regions|
  {
    if k == |regions| then Done(QueryFailed)
    else if regions[k].free then Done(Success)
    else if regions[k].permission != ReadExecute then Done(UnusualSectionLayout)
    else if k + 1 == |regions| then Done(QueryFailed)
    else if regions[k + 1].permission != Read then Done(UnusualSectionLayout)
    else
      var d := AfterReadOnly(regions, k + 1);
      if d == |regions| then Done(QueryFailed)
      else if regions[d].permission != ReadWrite then Done(UnusualSectionLayout)
      else Module(Bases(regions[k].base, regions[k + 1].base, regions[d].base), d)
  }

  /** What the scan does from region `k` on. */
  function ScanFrom(regions: seq<Region>, k: nat): Found
    requires k <= |regions|
    decreases |regions| - k
  {
    match RoundAt(regions, k)
    case Done(rc) => Found(rc, [])
    case Module(bases, last) =>
      var rest := ScanFrom(regions, last + 1);
      Found(rest.rc, [bases] + rest.calls)
  }

  /** The body of the loop, up to the callback. */
  method OneRound(regions: seq<Region>, addr: nat, ghost at: nat) returns (r: Round)
    requires IsMap(regions) && at <= |regions| && Query(regions, addr) == IndexOrNone(regions, at)
    ensures r == RoundAt(regions, at)
  {
    var cur := Query(regions, addr);
    if cur.None? {
      return Done(QueryFailed);
    }
    var info := regions[cur.value];
    if info.free {
      return Done(Success);
    }
    if info.permission != ReadExecute {
      return Done(UnusualSectionLayout);
    }
    var textBase := info.base;
    QueryNext(regions, at);
    cur := Query(regions, info.base + info.size);
    if cur.None? {
      return Done(QueryFailed);
    }
    info := regions[cur.value];
    if info.permission != Read {
      return Done(UnusualSectionLayout);
    }
    var rodataBase := info.base;
    cur := SkipReadOnly(regions, cur.value);
    if cur.None? {
      return Done(QueryFailed);
    }
    info := regions[cur.value];
    var bssBase := info.base;
    if info.permission != ReadWrite {
      return Done(UnusualSectionLayout);
    }
    r := Module(Bases(textBase, rodataBase, bssBase), cur.value);
  }

  /** The whole result when `calls` were made before region `k`. */
  function Continued(regions: seq<Region>, k: nat, calls: seq<Bases>): Found
    requires k <= |regions|
  {
    Found(ScanFrom(regions, k).rc, calls + ScanFrom(regions, k).calls)
  }

  lemma CallsExtend(regions: seq<Region>, k: nat, calls: seq<Bases>)
    requires k <= |regions| && RoundAt(regions, k).Module?
    ensures Continued(regions, k, calls)
         == Continued(regions, RoundAt(regions, k).last + 1, calls + [RoundAt(regions, k).bases])
  {
  }

  /** The scan from an address. */
  function Scan(regions: seq<Region>, autoLoadBase: nat): Found
  {
    match Query(regions, autoLoadBase)
    case Some(k) => ScanFrom(regions, k)
    case None => Found(QueryFailed, [])
  }

  /** The scan; the callbacks are collected in order. It ends on every map. */
  method ForEachAutoLoadModule(regions: seq<Region>, autoLoadBase: nat) returns (rc: Outcome, calls: seq<Bases>)
    requires IsMap(regions)
    ensures Found(rc, calls) == Scan(regions, autoLoadBase)
  {
    calls := [];
    var addr: nat := autoLoadBase;
    ghost var at: nat := match Query(regions, addr) case Some(k) => k case None => |regions|;
    ghost var all := ScanFrom(regions, at);
    assert [] + ScanFrom(regions, at).calls == ScanFrom(regions, at).calls;
    while true
      invariant at <= |regions| && Query(regions, addr) == IndexOrNone(regions, at)
      invariant all == Continued(regions, at, calls)
      decreases |regions| - at
    {
      var round := OneRound(regions, addr, at);
      if round.Done? {
        return round.rc, calls;
      }
      CallsExtend(regions, at, calls);
      calls := calls + [round.bases];
      QueryNext(regions, round.last);
      addr := regions[round.last].base + regions[round.last].size;
      at := round.last + 1;
    }
  }

  /** The inner loop, from the first read-only region. */
  method SkipReadOnly(regions: seq<Region>, first: nat) returns (cur: Option<nat>)
    requires IsMap(regions) && first < |regions|
    ensures var d := AfterReadOnly(regions, first); cur == if d < |regions| then Some(d) else None
  {
    cur := Some(first);
    while regions[cur.value].permission == Read
      invariant cur.Some? && first <= cur.value < |regions|
      invariant AfterReadOnly(regions, cur.value) == AfterReadOnly(regions, first)
      decreases |regions| - cur.value
    {
      QueryNext(regions, cur.value);
      cur := Query(regions, regions[cur.value].base + regions[cur.value].size);
      if cur.None? {
        return;
      }
    }
  }

  // ----- any map -----

  /** Regions `k` to `d` are one module: code, read-only data in one or more regions, writable data. */
  ghost predicate IsModule(regions: seq<Region>, k: nat, d: nat, bases: Bases)
  {
    && k + 1 < d < |regions|
    && regions[k].permission == ReadExecute && regions[d].permission == ReadWrite
    && (forall j :: k < j < d ==> regions[j].permission == Read)
    && bases == Bases(regions[k].base, regions[k + 1].base, regions[d].base)
  }

  /** The calls are for modules that lie one directly after the other from region `k` on. */
  ghost predicate AreModules(regions: seq<Region>, k: nat, calls: seq<Bases>)
    decreases |calls|
  {
    calls != [] ==> exists d: nat :: IsModule(regions, k, d, calls[0]) && AreModules(regions, d + 1, calls[1..])
  }

  /** On any map each callback is for a contiguous code, read-only, writable triple. */
  lemma {:induction false} CallsAreModules(regions: seq<Region>, k: nat)
    requires k <= |regions|
    ensures AreModules(regions, k, ScanFrom(regions, k).calls)
    decreases |regions| - k
  {
    var found := ScanFrom(regions, k);
    if found.calls != [] {
      var d := AfterReadOnly(regions, k + 1);
      CallsAreModules(regions, d + 1);
      assert found.calls[1..] == ScanFrom(regions, d + 1).calls;
      assert IsModule(regions, k, d, found.calls[0]);
    }
  }

  // ----- a map of whole modules -----

  datatype Shape = Shape(text: nat, rodata: seq<nat>, data: nat) {
    ghost predicate Valid() { text > 0 && rodata != [] && data > 0 && forall k :: 0 <= k < |rodata| ==> rodata[k] > 0 }
  }

  function SumTo(sizes: seq<nat>, k: nat): nat
    requires k <= |sizes|
  {
    if k == 0 then 0 else SumTo(sizes, k - 1) + sizes[k - 1]
  }

  function Sum(sizes: seq<nat>): nat { SumTo(sizes, |sizes|) }

  function ReadOnlyAt(base: nat, sizes: seq<nat>): (r: seq<Region>)
    ensures |r| == |sizes|
    ensures forall k {:trigger r[k]} :: 0 <= k < |r| ==> r[k] == Region(base + SumTo(sizes, k), sizes[k], false, Read)
  {
    seq(|sizes|, k requires 0 <= k < |sizes| => Region(base + SumTo(sizes, k), sizes[k], false, Read))
  }

  function ModuleRegions(base: nat, s: Shape): (r: seq<Region>)
    ensures |r| == |s.rodata| + 2 && r[0] == Region(base, s.text, false, ReadExecute)
    ensures r[|r| - 1] == Region(base + s.text + Sum(s.rodata), s.data, false, ReadWrite)
  {
    [Region(base, s.text, false, ReadExecute)] + ReadOnlyAt(base + s.text, s.rodata)
      + [Region(base + s.text + Sum(s.rodata), s.data, false, ReadWrite)]
  }

  /** The regions of modules laid out from `base` on, and a free region after the last. */
  function Layout(base: nat, shapes: seq<Shape>, freeSize: nat): (r: seq<Region>)
    ensures r != [] && r[0].base == base
    decreases |shapes|
  {
    if shapes == [] then [Region(base, freeSize, true, Nothing)]
    else
      var s := shapes[0];
      var data := base + s.text + Sum(s.rodata);
      ModuleRegions(base, s) + Layout(data + s.data, shapes[1..], freeSize)
  }

  function AllBases(base: nat, shapes: seq<Shape>): seq<Bases>
    decreases |shapes|
  {
    if shapes == [] then []
    else
      var s := shapes[0];
      var data := base + s.text + Sum(s.rodata);
      [Bases(base, base + s.text, data)] + AllBases(data + s.data, shapes[1..])
  }

  /** The scan from a suffix of a map only looks at the suffix. */
  lemma {:induction false} AfterReadOnlyShift(before: seq<Region>, regions: seq<Region>, k: nat)
    requires k <= |regions|
    ensures AfterReadOnly(before + regions, |before| + k) == |before| + AfterReadOnly(regions, k)
    decreases |regions| - k
  {
    if k < |regions| {
      assert (before + regions)[|before| + k] == regions[k];
      AfterReadOnlyShift(before, regions, k + 1);
    }
  }

  function Shifted(r: Round, n: nat): Round { if r.Module? then Module(r.bases, r.last + n) else r }

  lemma RoundShift(before: seq<Region>, regions: seq<Region>, k: nat)
    requires k <= |regions|
    ensures RoundAt(before + regions, |before| + k) == Shifted(RoundAt(regions, k), |before|)
  {
    var all := before + regions;
    assert forall j :: 0 <= j < |regions| ==> all[|before| + j] == regions[j];
    if k < |regions| {
      AfterReadOnlyShift(before, regions, k + 1);
    }
  }

  lemma {:induction false} ScanShift(before: seq<Region>, regions: seq<Region>, k: nat)
    requires k <= |regions|
    ensures ScanFrom(before + regions, |before| + k) == ScanFrom(regions, k)
    decreases |regions| - k
  {
    RoundShift(before, regions, k);
    if RoundAt(regions, k).Module? {
      ScanShift(before, regions, RoundAt(regions, k).last + 1);
    }
  }

  lemma JoinsLeft<X>(a: seq<X>, b: seq<X>, c: seq<X>)
    ensures (a + b) + c == a + (b + c)
  {
  }

  lemma LayoutUnfolds(base: nat, shapes: seq<Shape>, freeSize: nat)
    returns (end: nat, tail: seq<Region>, bases: seq<Bases>)
    requires shapes != []
    ensures tail == Layout(end, shapes[1..], freeSize) && bases == AllBases(end, shapes[1..])
    ensures Layout(base, shapes, freeSize) == ModuleRegions(base, shapes[0]) + tail
    ensures AllBases(base, shapes) == [FirstBases(base, shapes[0])] + bases
  {
    var s := shapes[0];
    end := base + s.text + Sum(s.rodata) + s.data;
    tail, bases := Layout(end, shapes[1..], freeSize), AllBases(end, shapes[1..]);
  }

  function FirstBases(base: nat, s: Shape): Bases { Bases(base, base + s.text, base + s.text + Sum(s.rodata)) }

  lemma {:induction false} LayoutScan(base: nat, shapes: seq<Shape>, freeSize: nat, after: seq<Region>)
    requires forall k :: 0 <= k < |shapes| ==> shapes[k].Valid()
    ensures ScanFrom(Layout(base, shapes, freeSize) + after, 0) == Found(Success, AllBases(base, shapes))
    decreases |shapes|
  {
    if shapes != [] {
      var end, tail, bases := LayoutUnfolds(base, shapes, freeSize);
      LayoutScan(end, shapes[1..], freeSize, after);
      FirstModule(base, shapes[0], tail, after, bases);
    }
  }

  /** Wherever in a memory map modules follow one another from `base` on, with free memory behind
      the last, the scan from `base` succeeds and calls back exactly once for each module, in
      ascending order, with its three bases. */
  lemma ScanFindsAll(
    regions: seq<Region>, before: seq<Region>, base: nat, shapes: seq<Shape>, freeSize: nat, after: seq<Region>)
    requires IsMap(regions) && regions == before + (Layout(base, shapes, freeSize) + after)
    requires forall k :: 0 <= k < |shapes| ==> shapes[k].Valid()
    ensures Scan(regions, base) == Found(Success, AllBases(base, shapes))
  {
    var layout := Layout(base, shapes, freeSize);
    assert regions[|before|] == (layout + after)[0] == layout[0];
    assert regions[|before|].size > 0;
    QueryIn(regions, |before|, base);
    ScanShift(before, layout + after, 0);
    LayoutScan(base, shapes, freeSize, after);
  }

  /** Scanning a module and what follows it is one callback and scanning what follows it. */
  lemma FirstModule(base: nat, s: Shape, tail: seq<Region>, after: seq<Region>, calls: seq<Bases>)
    requires s.Valid() && ScanFrom(tail + after, 0) == Found(Success, calls)
    ensures ScanFrom(ModuleRegions(base, s) + tail + after, 0)
         == Found(Success, [FirstBases(base, s)] + calls)
  {
    JoinsLeft(ModuleRegions(base, s), tail, after);
    ScanShift(ModuleRegions(base, s), tail + after, 0);
    FirstRound(base, s, tail + after);
  }

  lemma FirstRound(base: nat, s: Shape, rest: seq<Region>)
    requires s.Valid()
    ensures RoundAt(ModuleRegions(base, s) + rest, 0)
         == Module(FirstBases(base, s), |s.rodata| + 1)
  {
    var all := ModuleRegions(base, s) + rest;
    var readOnly := ReadOnlyAt(base + s.text, s.rodata);
    assert forall j :: 1 <= j < |s.rodata| + 1 ==> all[j] == readOnly[j - 1];
    SkipsTo(all, 1, |s.rodata| + 1);
  }

  lemma {:induction false} SkipsTo(regions: seq<Region>, k: nat, d: nat)
    requires k <= d < |regions| && regions[d].permission != Read
    requires forall j :: k <= j < d ==> regions[j].permission == Read
    ensures AfterReadOnly(regions, k) == d
    decreases d - k
  {
    if k < d {
      SkipsTo(regions, k + 1, d);
    }
  }

  /** The address behind regions that start at `base`. */
  function EndOf(regions: seq<Region>, base: nat): nat
  {
    if regions == [] then base else regions[|regions| - 1].base + regions[|regions| - 1].size
  }

  lemma MapsJoin(a: seq<Region>, b: seq<Region>, base: nat)
    requires IsMap(a) && IsMap(b) && (b != [] ==> b[0].base == EndOf(a, b[0].base))
    requires a != []
    ensures IsMap(a + b) && EndOf(a + b, base) == EndOf(b, EndOf(a, base))
  {
    var all := a + b;
    forall j, k | 0 <= j < k < |all| && k == j + 1
      ensures all[k].base == all[j].base + all[j].size
    {
      if k < |a| {
        assert all[j] == a[j] && all[k] == a[k];
      } else if k == |a| {
        assert all[j] == a[|a| - 1] && all[k] == b[0];
      } else {
        assert all[j] == b[j - |a|] && all[k] == b[k - |a|];
      }
    }
  }

  /** Such a layout is a map. */
  lemma {:induction false} LayoutIsMap(base: nat, shapes: seq<Shape>, freeSize: nat)
    requires freeSize > 0 && forall k :: 0 <= k < |shapes| ==> shapes[k].Valid()
    ensures IsMap(Layout(base, shapes, freeSize))
    decreases |shapes|
  {
    if shapes != [] {
      var s := shapes[0];
      var data := base + s.text + Sum(s.rodata);
      LayoutIsMap(data + s.data, shapes[1..], freeSize);
      ModuleIsMap(base, s, ModuleRegions(base, s));
      MapsJoin(ModuleRegions(base, s), Layout(data + s.data, shapes[1..], freeSize), base);
    }
  }

  lemma ModuleIsMap(base: nat, s: Shape, regions: seq<Region>)
    requires s.Valid() && regions == ModuleRegions(base, s)
    ensures IsMap(regions) && EndOf(regions, base) == base + s.text + Sum(s.rodata) + s.data
  {
    var readOnly := ReadOnlyAt(base + s.text, s.rodata);
    forall j, k | 0 <= j < k < |regions| && k == j + 1
      ensures regions[k].base == regions[j].base + regions[j].size
    {
      assert k <= |s.rodata| ==> regions[k] == readOnly[k - 1];
      assert 1 <= j ==> regions[j] == readOnly[j - 1];
    }
  }

  // ----- what success means on any map -----

  /** Every executable region from `k` to `end` got a call. */
  ghost predicate AllCalled(regions: seq<Region>, k: nat, end: nat, calls: seq<Bases>)
    requires end <= |regions|
  {
    forall j :: k <= j < end && regions[j].permission == ReadExecute ==>
      exists c :: 0 <= c < |calls| && calls[c].text == regions[j].base
  }

  /** A scan that succeeds ran up to free memory and called back for every executable region on the
      way, whatever the map. */
  lemma {:induction false} SuccessMissesNone(regions: seq<Region>, k: nat) returns (end: nat)
    requires k <= |regions| && ScanFrom(regions, k).rc == Success
    ensures k <= end < |regions| && regions[end].free && AllCalled(regions, k, end, ScanFrom(regions, k).calls)
    decreases |regions| - k
  {
    match RoundAt(regions, k)
    case Done(_) => end := k;
    case Module(bases, last) =>
      end := SuccessMissesNone(regions, last + 1);
      OneMoreCalled(regions, k, last, end, bases, ScanFrom(regions, last + 1).calls);
  }

  lemma OneMoreCalled(regions: seq<Region>, k: nat, last: nat, end: nat, bases: Bases, rest: seq<Bases>)
    requires k <= last < end <= |regions| && RoundAt(regions, k) == Module(bases, last)
    requires AllCalled(regions, last + 1, end, rest)
    ensures AllCalled(regions, k, end, [bases] + rest)
  {
    var calls := [bases] + rest;
    forall j | k <= j < end && regions[j].permission == ReadExecute
      ensures exists c :: 0 <= c < |calls| && calls[c].text == regions[j].base
    {
      if j <= last {
        assert j == k && calls[0].text == regions[j].base;
      } else {
        var c :| 0 <= c < |rest| && rest[c].text == regions[j].base;
        assert calls[c + 1] == rest[c];
      }
    }
  }
}
