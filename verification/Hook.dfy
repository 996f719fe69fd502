/** Hooks over code memory (hakkun/include/hk/hook/Hook.h, `writeRo` in hakkun/src/hk/ro/RoModule.cpp).
    Addresses are counted in instructions from the start of the module. */
module Hook {
  import opened Buffers
  import opened Words

  datatype Outcome = Success | AlreadyInstalled | NotInstalled | NotMapped | OutOfRange | AlreadyMapped | MapFailed

  /** A hook object: where it was installed and the instructions it replaced. */
  datatype HookState = HookState(offset: nat, orig: seq<U32>) {
    predicate IsInstalled()
      requires orig != []
    {
      orig[0] != 0
    }
  }

  function Cleared(n: nat): HookState { HookState(0, Zeros(n)) }

  function Overwrite(code: seq<U32>, offset: nat, words: seq<U32>): (r: seq<U32>)
    requires offset + |words| <= |code|
    ensures |r| == |code| && r[offset..offset + |words|] == words
    ensures forall k :: 0 <= k < |code| && !(offset <= k < offset + |words|) ==> r[k] == code[k]
  {
    code[..offset] + words + code[offset + |words|..]
  }

  /** What `writeRo` answers before it writes. */
  function WriteCheck(mapped: bool, size: nat, offset: nat, count: nat): Outcome
  {
    if !mapped then NotMapped else if offset + count > size then OutOfRange else Success
  }

  /** The writable mappings: that of the text has `text` words, and that of the read-only data,
      which follows the text in the module, may happen to begin where that of the text ends. */
  datatype Views = Views(text: nat, adjacent: bool)

  /** The write stays in the mapping it starts in, or runs on into the right one. */
  predicate Lands(views: Views, offset: nat, count: nat)
  {
    views.adjacent || offset >= views.text || offset + count <= views.text
  }

  /** The module after a checked write: one that begins in the text ends at the end of the text,
      unless the mappings are adjacent. */
  function Written(views: Views, code: seq<U32>, offset: nat, words: seq<U32>): (r: seq<U32>)
    requires views.text <= |code| && offset + |words| <= |code|
    ensures |r| == |code|
  {
    if Lands(views, offset, |words|) then Overwrite(code, offset, words)
    else Overwrite(code, offset, words[..views.text - offset])
  }

  /** A checked write leaves the words that were asked for if and only if it stays in one mapping,
      the mappings are adjacent, or the read-only data already held the words that got lost. */
  lemma WriteLandsExactlyWhen(views: Views, code: seq<U32>, offset: nat, words: seq<U32>)
    requires views.text <= |code| && offset + |words| <= |code|
    ensures Written(views, code, offset, words) == Overwrite(code, offset, words)
       <==> offset >= views.text || offset + |words| <= views.text || views.adjacent
            || code[views.text..offset + |words|] == words[views.text - offset..]
  {
    if !Lands(views, offset, |words|) {
      Straddles(code, offset, views.text, words);
    }
  }

  lemma Straddles(code: seq<U32>, offset: nat, text: nat, words: seq<U32>)
    requires offset < text < offset + |words| <= |code|
    ensures Overwrite(code, offset, words[..text - offset]) == Overwrite(code, offset, words)
       <==> code[text..offset + |words|] == words[text - offset..]
  {
    var end := offset + |words|;
    var asked, got := Overwrite(code, offset, words), Overwrite(code, offset, words[..text - offset]);
    assert asked[offset..end][text - offset..] == asked[text..end];
    assert got[text..end] == code[text..end];
    if code[text..end] == words[text - offset..] {
      assert got[offset..text] == words[..text - offset] == asked[offset..end][..text - offset];
      assert asked == asked[..offset] + asked[offset..text] + asked[text..end] + asked[end..];
      assert got == got[..offset] + got[offset..text] + got[text..end] + got[end..];
    }
  }

  /** A module as its two writable mappings show it, one for the text and one for the read-only
      data that follows the text in the module. Behind that is `data`, which is not mapped again. */
  class RoModule {
    const text: array<U32>
    const rodata: array<U32>
    const data: array<U32>
    var textMapped: bool
    var rodataMapped: bool
    var adjacent: bool

    constructor (text: array<U32>, rodata: array<U32>, data: array<U32>)
      requires text != rodata && text != data && rodata != data
      ensures this.text == text && this.rodata == rodata && this.data == data
      ensures Valid() && !textMapped && !rodataMapped
    {
      this.text, this.rodata, this.data := text, rodata, data;
      textMapped, rodataMapped, adjacent := false, false, false;
    }

    predicate Valid() { text != rodata && text != data && rodata != data }

    predicate Mapped()
      reads this
    {
      textMapped && rodataMapped
    }

    function Mappings(): (v: Views)
      reads this
    {
      Views(text.Length, adjacent)
    }

    function Contents(): (c: seq<U32>)
      reads text, rodata
      ensures |c| == text.Length + rodata.Length
    {
      text[..] + rodata[..]
    }

    function Memory(): seq<U32>
      reads text, rodata, data
    {
      Contents() + data[..]
    }

    /** Maps the text, then the read-only data; the kernel may refuse either, and the two random
        places may be next to each other. */
    method MapRw(textMaps: bool, rodataMaps: bool, adjacent: bool) returns (rc: Outcome)
      modifies this
      ensures (Mapping(textMapped, rodataMapped), rc)
           == Map(old(Mapping(textMapped, rodataMapped)), textMaps, rodataMaps)
      ensures rc == if old(textMapped) || old(rodataMapped) then AlreadyMapped
                    else if textMaps && rodataMaps then Success else MapFailed
      ensures this.adjacent == if rc == Success then adjacent else old(this.adjacent)
    {
      if textMapped || rodataMapped {
        return AlreadyMapped;
      }
      if !textMaps {
        return MapFailed;
      }
      textMapped := true;
      if !rodataMaps {
        return MapFailed;
      }
      rodataMapped, this.adjacent := true, adjacent;
      rc := Success;
    }

    /** Copies into the mapping that the first word belongs to. `spilled` is what the copy puts
        behind the end of the text mapping when something else is there. */
    method WriteRo(offset: nat, source: seq<U32>) returns (rc: Outcome, spilled: seq<U32>)
      requires Valid()
      modifies text, rodata
      ensures rc == if !textMapped || !rodataMapped then NotMapped
                    else if offset + |source| > text.Length + rodata.Length then OutOfRange else Success
      ensures rc != Success ==> Contents() == old(Contents()) && spilled == []
      ensures rc == Success ==> Contents() == Written(Mappings(), old(Contents()), offset, source)
      ensures rc == Success ==>
                spilled == if Lands(Mappings(), offset, |source|) then [] else source[text.Length - offset..]
    {
      rc, spilled := WriteCheck(Mapped(), text.Length + rodata.Length, offset, |source|), [];
      if rc != Success {
        return;
      }
      var isText := !(offset >= text.Length);
      if !isText {
        CopyToRodata(offset - text.Length, source);
      } else if adjacent {
        CopyAcross(offset, source);
      } else {
        spilled := CopyToText(offset, source);
      }
    }

    method CopyToText(offset: nat, source: seq<U32>) returns (spilled: seq<U32>)
      requires Valid() && !adjacent && offset < text.Length && offset + |source| <= text.Length + rodata.Length
      modifies text
      ensures Contents() == Written(Mappings(), old(Contents()), offset, source)
      ensures spilled == if Lands(Mappings(), offset, |source|) then [] else source[text.Length - offset..]
    {
      spilled := [];
      var inside := if offset + |source| <= text.Length then |source| else text.Length - offset;
      var i := 0;
      while i < |source|
        invariant i <= |source|
        invariant forall k :: offset <= k < offset + i && k < text.Length ==> text[k] == source[k - offset]
        invariant forall k :: 0 <= k < text.Length && !(offset <= k < offset + i) ==> text[k] == old(text[k])
        invariant spilled == if i <= inside then [] else source[inside..i]
      {
        if offset + i < text.Length {
          text[offset + i] := source[i];
        } else {
          spilled := spilled + [source[i]];
        }
        i := i + 1;
      }
      assert source[..inside][..] == source[..inside];
      CopiedContents(offset, source[..inside], old(text[..]), old(rodata[..]));
      assert inside == |source| ==> source[..inside] == source;
    }

    /** A copy that runs on into the mapping of the read-only data. */
    method CopyAcross(offset: nat, source: seq<U32>)
      requires Valid() && adjacent && offset < text.Length && offset + |source| <= text.Length + rodata.Length
      modifies text, rodata
      ensures Contents() == Overwrite(old(Contents()), offset, source)
    {
      var i := 0;
      while i < |source|
        invariant i <= |source|
        invariant forall k :: offset <= k < offset + i && k < text.Length ==> text[k] == source[k - offset]
        invariant forall k :: 0 <= k < text.Length && !(offset <= k < offset + i) ==> text[k] == old(text[k])
        invariant forall k :: 0 <= k < rodata.Length ==>
            rodata[k] == if k < offset + i - text.Length then source[k + text.Length - offset] else old(rodata[k])
      {
        if offset + i < text.Length {
          text[offset + i] := source[i];
        } else {
          rodata[offset + i - text.Length] := source[i];
        }
        i := i + 1;
      }
      ghost var want := Overwrite(old(Contents()), offset, source);
      forall k | 0 <= k < |want|
        ensures Contents()[k] == want[k]
      {
        if offset <= k < offset + |source| {
          assert want[k] == want[offset..offset + |source|][k - offset];
        }
      }
    }

    lemma CopiedContents(offset: nat, words: seq<U32>, text0: seq<U32>, rodata0: seq<U32>)
      requires |text0| == text.Length && rodata0 == rodata[..] && offset + |words| <= text.Length
      requires forall k :: offset <= k < offset + |words| ==> text[k] == words[k - offset]
      requires forall k :: 0 <= k < text.Length && !(offset <= k < offset + |words|) ==> text[k] == text0[k]
      ensures Contents() == Overwrite(text0 + rodata0, offset, words)
    {
      var want := Overwrite(text0 + rodata0, offset, words);
      forall k | 0 <= k < |want|
        ensures Contents()[k] == want[k]
      {
        if offset <= k < offset + |words| {
          assert want[k] == want[offset..offset + |words|][k - offset];
        }
      }
    }

    method CopyToRodata(at: nat, source: seq<U32>)
      requires Valid() && at + |source| <= rodata.Length
      modifies rodata
      ensures Contents() == Overwrite(old(Contents()), text.Length + at, source)
    {
      var i := 0;
      while i < |source|
        invariant i <= |source|
        invariant forall k :: at <= k < at + i ==> rodata[k] == source[k - at]
        invariant forall k :: 0 <= k < rodata.Length && !(at <= k < at + i) ==> rodata[k] == old(rodata[k])
      {
        rodata[at + i] := source[i];
        i := i + 1;
      }
      ghost var want := Overwrite(old(Contents()), text.Length + at, source);
      forall k | 0 <= k < |want|
        ensures Contents()[k] == want[k]
      {
        if text.Length + at <= k < text.Length + at + |source| {
          assert want[k] == want[text.Length + at..text.Length + at + |source|][k - text.Length - at];
        }
      }
    }
  }

  // ----- mapping -----

  datatype Mapping = Mapping(text: bool, rodata: bool)

  function Map(m: Mapping, textMaps: bool, rodataMaps: bool): (Mapping, Outcome)
  {
    if m.text || m.rodata then (m, AlreadyMapped)
    else if !textMaps then (m, MapFailed)
    else if !rodataMaps then (Mapping(true, false), MapFailed)
    else (Mapping(true, true), Success)
  }

  function MapRun(m: Mapping, attempts: seq<(bool, bool)>): Mapping
    decreases |attempts|
  {
    if attempts == [] then m else MapRun(Map(m, attempts[0].0, attempts[0].1).0, attempts[1..])
  }

  /** Attempt `k` is the first that maps the text, and it maps the read-only data too. */
  ghost predicate MapsBothFirst(attempts: seq<(bool, bool)>, k: nat)
  {
    k < |attempts| && attempts[k] == (true, true) && forall j :: 0 <= j < k ==> !attempts[j].0
  }

  /** Retrying does not help once the text alone is mapped: a module becomes writable if and only
      if the first attempt that maps its text maps the read-only data too. */
  lemma {:induction false} MappedExactlyWhen(attempts: seq<(bool, bool)>)
    ensures MapRun(Mapping(false, false), attempts) == Mapping(true, true)
       <==> exists k: nat :: MapsBothFirst(attempts, k)
    decreases |attempts|
  {
    if attempts == [] {
    } else if attempts[0].0 {
      MappedStays(Map(Mapping(false, false), true, attempts[0].1).0, attempts[1..]);
      assert attempts[0].1 ==> MapsBothFirst(attempts, 0);
    } else {
      MappedExactlyWhen(attempts[1..]);
      if k: nat :| MapsBothFirst(attempts[1..], k) {
        assert MapsBothFirst(attempts, k + 1);
      }
      if k: nat :| MapsBothFirst(attempts, k) {
        assert MapsBothFirst(attempts[1..], k - 1);
      }
    }
  }

  lemma {:induction false} MappedStays(m: Mapping, attempts: seq<(bool, bool)>)
    requires m.text
    ensures MapRun(m, attempts) == m
    decreases |attempts|
  {
    if attempts != [] {
      MappedStays(m, attempts[1..]);
    }
  }

  // ----- what the operations do -----

  datatype Effect = Effect(code: seq<U32>, hook: HookState, rc: Outcome)

  /** `behind` is what follows the read-only data; it can be read, not written. */
  function InstallEffect(
      mapped: bool, views: Views, code: seq<U32>, behind: seq<U32>, hook: HookState, offset: nat,
      instrs: seq<U32>): Effect
    requires hook.orig != [] && views.text <= |code|
    requires hook.IsInstalled() || offset + |hook.orig| <= |code| + |behind|
  {
    var n := |hook.orig|;
    var rc := WriteCheck(mapped, |code|, offset, |instrs|);
    if hook.IsInstalled() then Effect(code, hook, AlreadyInstalled)
    else if rc != Success then Effect(code, Cleared(n), rc)
    else Effect(Written(views, code, offset, instrs), HookState(offset, (code + behind)[offset..offset + n]), Success)
  }

  function UninstallEffect(mapped: bool, views: Views, code: seq<U32>, hook: HookState): Effect
    requires hook.orig != [] && views.text <= |code|
  {
    var n := |hook.orig|;
    var rc := WriteCheck(mapped, |code|, hook.offset, n);
    if !hook.IsInstalled() then Effect(code, hook, NotInstalled)
    else if rc != Success then Effect(code, hook, rc)
    else Effect(Written(views, code, hook.offset, hook.orig), Cleared(n), Success)
  }

  /** `HookNInstr<N>`. */
  class HookNInstr {
    const size: nat
    var target: RoModule?
    var offset: nat
    var origInstrs: seq<U32>

    constructor (size: nat)
      requires size > 0
      ensures this.size == size && Valid() && State() == Cleared(size) && target == null
    {
      this.size, target, offset, origInstrs := size, null, 0, Zeros(size);
    }

    predicate Valid()
      reads this
    {
      size > 0 && |origInstrs| == size && (target == null ==> origInstrs[0] == 0)
    }

    function State(): HookState
      reads this
    {
      HookState(offset, origInstrs)
    }

    predicate IsInstalled()
      requires Valid()
      reads this
    {
      origInstrs[0] != 0
    }

    method Clear()
      requires size > 0
      modifies this
      ensures Valid() && State() == Cleared(size) && target == null
    {
      target, offset, origInstrs := null, 0, Zeros(size);
    }

    method InstallAtOffset(where: RoModule, at: nat, instrs: seq<U32>) returns (rc: Outcome)
      requires Valid() && where.Valid()
      requires IsInstalled() || at + size <= where.text.Length + where.rodata.Length + where.data.Length
      modifies this, where.text, where.rodata
      ensures Valid()
      ensures Effect(where.Contents(), State(), rc)
           == InstallEffect(where.Mapped(), where.Mappings(), old(where.Contents()), where.data[..], old(State()),
                            at, instrs)
      ensures rc == if old(origInstrs[0]) != 0 then AlreadyInstalled
                    else if !where.textMapped || !where.rodataMapped then NotMapped
                    else if at + |instrs| > where.text.Length + where.rodata.Length then OutOfRange else Success
      ensures rc == Success ==> target == where
      ensures rc == AlreadyInstalled ==> target == old(target)
    {
      if IsInstalled() {
        return AlreadyInstalled;
      }
      target, offset := where, at;
      origInstrs := where.Memory()[at..at + size];
      var spilled;
      rc, spilled := where.WriteRo(offset, instrs);
      if rc != Success {
        Clear();
      }
    }

    method Uninstall(ghost where: RoModule) returns (rc: Outcome)
      requires Valid() && where.Valid() && (target == null || target == where)
      modifies this, where.text, where.rodata
      ensures Valid()
      ensures Effect(where.Contents(), State(), rc)
           == UninstallEffect(where.Mapped(), where.Mappings(), old(where.Contents()), old(State()))
      ensures rc == if old(origInstrs[0]) == 0 then NotInstalled
                    else if !where.textMapped || !where.rodataMapped then NotMapped
                    else if old(offset) + size > where.text.Length + where.rodata.Length then OutOfRange else Success
    {
      if !IsInstalled() {
        return NotInstalled;
      }
      var spilled;
      rc, spilled := target.WriteRo(offset, origInstrs);
      if rc == Success {
        Clear();
      }
    }
  }

  // ----- runs -----

  datatype Op = Install(id: nat, at: nat, instrs: seq<U32>) | Uninstall(id: nat)

  /** Words a hook has written, and the window it saved. */
  datatype Patch = Patch(id: nat, offset: nat, size: nat, instrs: seq<U32>)

  /** Text and read-only data, the hook objects, and the patches in the order they were installed. */
  datatype World = World(views: Views, code: seq<U32>, hooks: seq<HookState>, patches: seq<Patch>)

  predicate Clashes(a: Patch, b: Patch) { !(a.offset + a.size <= b.offset || b.offset + b.size <= a.offset) }

  predicate Covers(p: Patch, k: int) { p.offset <= k < p.offset + p.size }

  ghost predicate PatchesFit(views: Views, code: seq<U32>, patches: seq<Patch>)
  {
    forall j :: 0 <= j < |patches| ==>
      && |patches[j].instrs| <= patches[j].size && patches[j].offset + patches[j].size <= |code|
      && Lands(views, patches[j].offset, patches[j].size)
  }

  /** The word at `i` of the original code with patches laid over it in order. */
  function At(original: seq<U32>, patches: seq<Patch>, i: nat): U32
    requires i < |original|
  {
    if patches == [] then original[i]
    else
      var last := patches[|patches| - 1];
      if last.offset <= i < last.offset + |last.instrs| then last.instrs[i - last.offset]
      else At(original, patches[..|patches| - 1], i)
  }

  function Overlay(original: seq<U32>, patches: seq<Patch>): (r: seq<U32>)
    ensures |r| == |original| && forall i :: 0 <= i < |original| ==> r[i] == At(original, patches, i)
  {
    seq(|original|, i requires 0 <= i < |original| => At(original, patches, i))
  }

  function Do(w: World, op: Op): World
    requires w.views.text <= |w.code| && op.id < |w.hooks| && w.hooks[op.id].orig != []
    requires op.Install? ==> w.hooks[op.id].IsInstalled() || op.at + |w.hooks[op.id].orig| <= |w.code|
  {
    match op
    case Install(id, at, instrs) =>
      var e := InstallEffect(true, w.views, w.code, [], w.hooks[id], at, instrs);
      World(w.views, e.code, w.hooks[id := e.hook],
            if e.rc == Success then w.patches + [Patch(id, at, |w.hooks[id].orig|, instrs)] else w.patches)
    case Uninstall(id) =>
      var e := UninstallEffect(true, w.views, w.code, w.hooks[id]);
      World(w.views, e.code, w.hooks[id := e.hook], if e.rc == Success then DropId(w.patches, id) else w.patches)
  }

  function DropId(patches: seq<Patch>, id: nat): seq<Patch>
  {
    if patches == [] then []
    else if patches[0].id == id then patches[1..]
    else [patches[0]] + DropId(patches[1..], id)
  }

  /** An install that does anything saves a window inside one mapping, stays in it and begins on a
      nonzero instruction; a hook is only uninstalled while no hook installed after it clashes
      with its window. */
  ghost predicate Allowed(w: World, op: Op)
  {
    && w.views.text <= |w.code| && op.id < |w.hooks| && w.hooks[op.id].orig != []
    && match op
       case Install(id, at, instrs) =>
         !w.hooks[id].IsInstalled() ==> InWindow(w.views, w.code, at, |w.hooks[id].orig|, instrs) && w.code[at] != 0
       case Uninstall(id) =>
         forall j, k :: 0 <= j < k < |w.patches| && w.patches[j].id == id ==> !Clashes(w.patches[j], w.patches[k])
  }

  /** Whatever writes to a window that is in the text or in the read-only data, or across two
      adjacent mappings, on an instruction that is not 0, may be installed. */
  lemma InstallIsAllowed(w: World, id: nat, at: nat, instrs: seq<U32>)
    requires w.views.text <= |w.code| && id < |w.hooks| && 0 < |w.hooks[id].orig|
    requires |instrs| <= |w.hooks[id].orig| && at + |w.hooks[id].orig| <= |w.code| && w.code[at] != 0
    requires at + |w.hooks[id].orig| <= w.views.text || at >= w.views.text || w.views.adjacent
    ensures Allowed(w, Install(id, at, instrs))
  {
  }

  predicate InWindow(views: Views, code: seq<U32>, at: nat, n: nat, instrs: seq<U32>)
  {
    0 < n && |instrs| <= n && at + n <= |code| && Lands(views, at, n)
  }

  /** The patch at position `j` and its hook agree. */
  ghost predicate Saved(original: seq<U32>, w: World, j: nat)
    requires j < |w.patches| && PatchesFit(w.views, original, w.patches)
  {
    var p := w.patches[j];
    && p.id < |w.hooks| && w.hooks[p.id].offset == p.offset && |w.hooks[p.id].orig| == p.size
    && w.hooks[p.id].orig == Overlay(original, w.patches[..j])[p.offset..p.offset + p.size]
    && p.size > 0 && w.hooks[p.id].orig[0] != 0
  }

  /** The code is the original with exactly the installed hooks' words over it, in install order. */
  ghost predicate Inv(original: seq<U32>, w: World)
  {
    && w.views.text <= |original| && PatchesFit(w.views, original, w.patches) && w.code == Overlay(original, w.patches)
    && (forall id :: 0 <= id < |w.hooks| ==> w.hooks[id].orig != [])
    && (forall j :: 0 <= j < |w.patches| ==> Saved(original, w, j))
    && DistinctIds(w.patches)
    && (forall id :: 0 <= id < |w.hooks| && w.hooks[id].IsInstalled() ==> HasPatch(w.patches, id))
  }

  ghost predicate DistinctIds(patches: seq<Patch>)
  {
    forall j, k :: 0 <= j < k < |patches| ==> patches[j].id != patches[k].id
  }

  predicate HasPatch(patches: seq<Patch>, id: nat) { exists j :: 0 <= j < |patches| && patches[j].id == id }

  lemma AtAppend(original: seq<U32>, patches: seq<Patch>, p: Patch, i: nat)
    requires i < |original|
    ensures At(original, patches + [p], i) ==
      if p.offset <= i < p.offset + |p.instrs| then p.instrs[i - p.offset] else At(original, patches, i)
  {
    assert (patches + [p])[..|patches|] == patches;
  }

  lemma OverlayAppend(original: seq<U32>, patches: seq<Patch>, p: Patch)
    requires p.offset + |p.instrs| <= |original|
    ensures Overlay(original, patches + [p]) == Overwrite(Overlay(original, patches), p.offset, p.instrs)
  {
    var r := Overwrite(Overlay(original, patches), p.offset, p.instrs);
    forall i | 0 <= i < |original|
      ensures At(original, patches + [p], i) == r[i]
    {
      AtAppend(original, patches, p, i);
      if p.offset <= i < p.offset + |p.instrs| {
        assert r[i] == r[p.offset..p.offset + |p.instrs|][i - p.offset];
      }
    }
  }

  /** Taking a patch away changes the code only inside its window, where what was below it shows
      again while no later patch clashes. */
  lemma {:induction false} AtWithout(original: seq<U32>, below: seq<Patch>, h: Patch, above: seq<Patch>, i: nat)
    requires i < |original| && |h.instrs| <= h.size
    requires forall k :: 0 <= k < |above| ==> |above[k].instrs| <= above[k].size && !Clashes(h, above[k])
    ensures At(original, below + above, i) ==
      if Covers(h, i) then At(original, below, i) else At(original, below + [h] + above, i)
    decreases |above|
  {
    if above == [] {
      assert below + above == below && below + [h] + above == below + [h];
      AtAppend(original, below, h, i);
    } else {
      var front, last := above[..|above| - 1], above[|above| - 1];
      assert below + [h] + above == (below + [h] + front) + [last] && below + above == (below + front) + [last];
      AtWithout(original, below, h, front, i);
      AtAppend(original, below + [h] + front, last, i);
      AtAppend(original, below + front, last, i);
    }
  }

  /** Restoring the window of a patch is taking the patch away. */
  lemma RestoreWindow(original: seq<U32>, below: seq<Patch>, h: Patch, above: seq<Patch>)
    requires |h.instrs| <= h.size && h.offset + h.size <= |original|
    requires forall k :: 0 <= k < |above| ==> |above[k].instrs| <= above[k].size && !Clashes(h, above[k])
    ensures Overwrite(Overlay(original, below + [h] + above), h.offset,
                      Overlay(original, below)[h.offset..h.offset + h.size])
         == Overlay(original, below + above)
  {
    var saved := Overlay(original, below)[h.offset..h.offset + h.size];
    var r := Overwrite(Overlay(original, below + [h] + above), h.offset, saved);
    forall i | 0 <= i < |original|
      ensures r[i] == At(original, below + above, i)
    {
      AtWithout(original, below, h, above, i);
      if Covers(h, i) {
        assert r[i] == r[h.offset..h.offset + h.size][i - h.offset];
      }
    }
  }

  /** A patch that does not clash sees the same window with and without another one below it. */
  lemma SameWindow(original: seq<U32>, below: seq<Patch>, h: Patch, between: seq<Patch>, p: Patch)
    requires |h.instrs| <= h.size && p.offset + p.size <= |original| && !Clashes(h, p)
    requires forall k :: 0 <= k < |between| ==> |between[k].instrs| <= between[k].size && !Clashes(h, between[k])
    ensures Overlay(original, below + [h] + between)[p.offset..p.offset + p.size]
         == Overlay(original, below + between)[p.offset..p.offset + p.size]
  {
    forall i | p.offset <= i < p.offset + p.size
      ensures At(original, below + [h] + between, i) == At(original, below + between, i)
    {
      AtWithout(original, below, h, between, i);
    }
  }

  lemma {:induction false} DropSplits(patches: seq<Patch>, j: nat)
    requires j < |patches| && forall k :: 0 <= k < j ==> patches[k].id != patches[j].id
    ensures DropId(patches, patches[j].id) == patches[..j] + patches[j + 1..]
  {
    if j > 0 {
      DropSplits(patches[1..], j - 1);
      assert patches[..j] == [patches[0]] + patches[1..][..j - 1];
    }
  }

  // ----- every step keeps the invariant -----

  lemma InstallKeepsSaved(original: seq<U32>, w: World, id: nat, at: nat, instrs: seq<U32>, j: nat)
    requires Inv(original, w) && Allowed(w, Install(id, at, instrs)) && !w.hooks[id].IsInstalled()
    requires j <= |w.patches|
    ensures var w' := Do(w, Install(id, at, instrs));
            && |w'.patches| == |w.patches| + 1 && PatchesFit(w'.views, original, w'.patches) && Saved(original, w', j)
            && (j < |w.patches| ==> w'.patches[j] == w.patches[j] && w.patches[j].id != id)
  {
    var w' := Do(w, Install(id, at, instrs));
    assert w'.patches == w.patches + [Patch(id, at, |w.hooks[id].orig|, instrs)];
    assert w'.hooks[id].orig[0] == w.code[at];
    assert w'.patches[..j] == w.patches[..j];
    if j < |w.patches| {
      assert Saved(original, w, j);
    } else {
      assert w.patches[..j] == w.patches;
    }
  }

  lemma InstallKeeps(original: seq<U32>, w: World, id: nat, at: nat, instrs: seq<U32>)
    requires Inv(original, w) && Allowed(w, Install(id, at, instrs)) && !w.hooks[id].IsInstalled()
    ensures Inv(original, Do(w, Install(id, at, instrs)))
  {
    var p := Patch(id, at, |w.hooks[id].orig|, instrs);
    var w' := Do(w, Install(id, at, instrs));
    OverlayAppend(original, w.patches, p);
    forall j | 0 <= j <= |w.patches|
      ensures PatchesFit(w'.views, original, w'.patches) && Saved(original, w', j)
      ensures j < |w.patches| ==> w'.patches[j] == w.patches[j] && w.patches[j].id != id
    {
      InstallKeepsSaved(original, w, id, at, instrs, j);
    }
    assert w'.patches[|w.patches|].id == id;
    forall i | 0 <= i < |w'.hooks| && w'.hooks[i].IsInstalled()
      ensures HasPatch(w'.patches, i)
    {
      if i != id {
        assert HasPatch(w.patches, i);
        var j :| 0 <= j < |w.patches| && w.patches[j].id == i;
        assert w'.patches[j].id == i;
      }
    }
  }

  /** `w'` is `w` with the patch at `j` taken away and its hook cleared. */
  ghost predicate TakenAway(original: seq<U32>, w: World, w': World, j: nat)
    requires j < |w.patches| && w.patches[j].id < |w.hooks|
  {
    && w'.patches == w.patches[..j] + w.patches[j + 1..]
    && w'.hooks == w.hooks[w.patches[j].id := Cleared(|w.hooks[w.patches[j].id].orig|)]
    && w'.code == Overlay(original, w'.patches) && w'.views == w.views
  }

  lemma UninstallTakesAway(original: seq<U32>, w: World, j: nat)
    requires Inv(original, w) && j < |w.patches| && Allowed(w, Uninstall(w.patches[j].id))
    ensures TakenAway(original, w, Do(w, Uninstall(w.patches[j].id)), j)
  {
    assert Saved(original, w, j);
    var h := w.patches[j];
    UninstallDoes(w, h.id);
    DropSplits(w.patches, j);
    RestoreAt(w.views, original, w.patches, j, h, w.hooks[h.id].orig);
  }

  lemma UninstallDoes(w: World, id: nat)
    requires id < |w.hooks| && w.hooks[id].orig != [] && w.hooks[id].IsInstalled()
    requires w.hooks[id].offset + |w.hooks[id].orig| <= |w.code| && w.views.text <= |w.code|
    requires Lands(w.views, w.hooks[id].offset, |w.hooks[id].orig|)
    ensures Do(w, Uninstall(id)) ==
      World(w.views, Overwrite(w.code, w.hooks[id].offset, w.hooks[id].orig),
            w.hooks[id := Cleared(|w.hooks[id].orig|)], DropId(w.patches, id))
  {
  }

  lemma RestoreAt(views: Views, original: seq<U32>, patches: seq<Patch>, j: nat, h: Patch, saved: seq<U32>)
    requires PatchesFit(views, original, patches) && j < |patches| && patches[j] == h
    requires saved == Overlay(original, patches[..j])[h.offset..h.offset + h.size]
    requires forall k :: j < k < |patches| ==> !Clashes(patches[j], patches[k])
    ensures Overwrite(Overlay(original, patches), h.offset, saved) == Overlay(original, patches[..j] + patches[j + 1..])
  {
    var below, above := patches[..j], patches[j + 1..];
    forall n | 0 <= n < |above|
      ensures |above[n].instrs| <= above[n].size && !Clashes(patches[j], above[n])
    {
      assert above[n] == patches[j + 1 + n];
    }
    assert patches == below + [patches[j]] + above;
    RestoreWindow(original, below, patches[j], above);
  }

  /** The remaining patches and hooks still agree. */
  lemma TakenAwayKeepsSaved(original: seq<U32>, w: World, w': World, j: nat, k: nat)
    requires Inv(original, w) && j < |w.patches| && k < |w.patches| - 1 && Allowed(w, Uninstall(w.patches[j].id))
    requires TakenAway(original, w, w', j)
    ensures PatchesFit(w'.views, original, w'.patches) && w'.patches[k].id != w.patches[j].id && Saved(original, w', k)
  {
    PatchesStillFit(w.views, original, w.patches, j);
    if k < j {
      assert w'.patches[..k] == w.patches[..k];
      StillSaved(original, w, w', k, k);
    } else {
      assert w'.patches[..k] == w.patches[..j] + w.patches[j + 1..k + 1];
      WindowsAbove(original, w, j, k);
      StillSaved(original, w, w', k + 1, k);
    }
  }

  /** A patch moves from `before` to `after` and its hook stays as it is. */
  lemma StillSaved(original: seq<U32>, w: World, w': World, before: nat, after: nat)
    requires before < |w.patches| && after < |w'.patches| && w'.patches[after] == w.patches[before]
    requires PatchesFit(w.views, original, w.patches) && PatchesFit(w'.views, original, w'.patches)
    requires Saved(original, w, before)
    requires w.patches[before].id < |w'.hooks| && w'.hooks[w.patches[before].id] == w.hooks[w.patches[before].id]
    requires var p := w.patches[before];
             Overlay(original, w.patches[..before])[p.offset..p.offset + p.size]
               == Overlay(original, w'.patches[..after])[p.offset..p.offset + p.size]
    ensures Saved(original, w', after)
  {
  }

  lemma PatchesStillFit(views: Views, original: seq<U32>, patches: seq<Patch>, j: nat)
    requires PatchesFit(views, original, patches) && j < |patches|
    ensures PatchesFit(views, original, patches[..j] + patches[j + 1..])
  {
  }

  lemma WindowsAbove(original: seq<U32>, w: World, j: nat, k: nat)
    requires Inv(original, w) && j <= k < |w.patches| - 1 && Allowed(w, Uninstall(w.patches[j].id))
    ensures var p := w.patches[k + 1];
            p.offset + p.size <= |original| &&
            Overlay(original, w.patches[..k + 1])[p.offset..p.offset + p.size]
              == Overlay(original, w.patches[..j] + w.patches[j + 1..k + 1])[p.offset..p.offset + p.size]
  {
    var between := w.patches[j + 1..k + 1];
    forall n | 0 <= n < |between|
      ensures |between[n].instrs| <= between[n].size && !Clashes(w.patches[j], between[n])
    {
      assert between[n] == w.patches[j + 1 + n];
    }
    assert w.patches[..k + 1] == w.patches[..j] + [w.patches[j]] + between;
    SameWindow(original, w.patches[..j], w.patches[j], between, w.patches[k + 1]);
  }

  lemma TakenAwayKeeps(original: seq<U32>, w: World, w': World, j: nat)
    requires Inv(original, w) && j < |w.patches| && Allowed(w, Uninstall(w.patches[j].id))
    requires TakenAway(original, w, w', j)
    ensures Inv(original, w')
  {
    forall k | 0 <= k < |w.patches| - 1
      ensures PatchesFit(w'.views, original, w'.patches)
      ensures w'.patches[k].id != w.patches[j].id && Saved(original, w', k)
    {
      TakenAwayKeepsSaved(original, w, w', j, k);
    }
    assert PatchesFit(w'.views, original, w'.patches);
    forall i | 0 <= i < |w'.hooks| && w'.hooks[i].IsInstalled()
      ensures HasPatch(w'.patches, i)
    {
      assert i != w.patches[j].id && HasPatch(w.patches, i);
      StillHasPatch(w.patches, j, i);
    }
    StillDistinct(w.patches, j);
  }

  lemma StillHasPatch(patches: seq<Patch>, j: nat, id: nat)
    requires j < |patches| && HasPatch(patches, id) && patches[j].id != id
    ensures HasPatch(patches[..j] + patches[j + 1..], id)
  {
    var k :| 0 <= k < |patches| && patches[k].id == id;
    assert (patches[..j] + patches[j + 1..])[if k < j then k else k - 1].id == id;
  }

  lemma StillDistinct(patches: seq<Patch>, j: nat)
    requires j < |patches| && DistinctIds(patches)
    ensures DistinctIds(patches[..j] + patches[j + 1..])
  {
  }

  lemma UninstallKeeps(original: seq<U32>, w: World, j: nat)
    requires Inv(original, w) && j < |w.patches| && Allowed(w, Uninstall(w.patches[j].id))
    ensures Inv(original, Do(w, Uninstall(w.patches[j].id)))
  {
    UninstallTakesAway(original, w, j);
    TakenAwayKeeps(original, w, Do(w, Uninstall(w.patches[j].id)), j);
  }

  lemma StepKeeps(original: seq<U32>, w: World, op: Op)
    requires Inv(original, w) && Allowed(w, op)
    ensures Inv(original, Do(w, op))
  {
    match op
    case Install(id, at, instrs) =>
      if w.hooks[id].IsInstalled() {
        assert w.hooks[id := w.hooks[id]] == w.hooks;
      } else {
        InstallKeeps(original, w, id, at, instrs);
      }
    case Uninstall(id) =>
      if w.hooks[id].IsInstalled() {
        assert HasPatch(w.patches, id);
        var j :| 0 <= j < |w.patches| && w.patches[j].id == id;
        UninstallKeeps(original, w, j);
      } else {
        assert w.hooks[id := w.hooks[id]] == w.hooks;
      }
  }

  // ----- whole runs -----

  ghost predicate AllowedRun(w: World, ops: seq<Op>)
    decreases |ops|
  {
    ops == [] || (Allowed(w, ops[0]) && AllowedRun(Do(w, ops[0]), ops[1..]))
  }

  ghost function Run(w: World, ops: seq<Op>): World
    requires AllowedRun(w, ops)
    decreases |ops|
  {
    if ops == [] then w else Run(Do(w, ops[0]), ops[1..])
  }

  /** Over every allowed run the code is the original overlaid with exactly the words of the hooks
      that report to be installed, in the order they were installed. */
  lemma {:induction false} RunKeeps(original: seq<U32>, w: World, ops: seq<Op>)
    requires Inv(original, w) && AllowedRun(w, ops)
    ensures Inv(original, Run(w, ops))
    decreases |ops|
  {
    if ops != [] {
      StepKeeps(original, w, ops[0]);
      RunKeeps(original, Do(w, ops[0]), ops[1..]);
    }
  }

  predicate NoneInstalled(hooks: seq<HookState>)
  {
    forall id :: 0 <= id < |hooks| ==> hooks[id].orig != [] && !hooks[id].IsInstalled()
  }

  /** When no hook is installed any more, the original code is back. */
  lemma AllUninstalledRestores(views: Views, original: seq<U32>, hooks: seq<HookState>, ops: seq<Op>)
    requires views.text <= |original|
    requires NoneInstalled(hooks)
    requires AllowedRun(World(views, original, hooks, []), ops)
    requires NoneInstalled(Run(World(views, original, hooks, []), ops).hooks)
    ensures Run(World(views, original, hooks, []), ops).code == original
  {
    var w := World(views, original, hooks, []);
    assert Inv(original, w);
    RunKeeps(original, w, ops);
    var end := Run(w, ops);
    if end.patches != [] {
      FirstIsInstalled(original, end);
    }
  }

  lemma FirstIsInstalled(original: seq<U32>, w: World)
    requires Inv(original, w) && w.patches != []
    ensures w.patches[0].id < |w.hooks| && w.hooks[w.patches[0].id].IsInstalled()
  {
    assert Saved(original, w, 0);
  }

  /** Uninstalling the hook that was installed last is always allowed, whatever overlaps. */
  lemma LastFirst(original: seq<U32>, w: World)
    requires Inv(original, w) && w.patches != []
    ensures Allowed(w, Uninstall(w.patches[|w.patches| - 1].id))
  {
    assert Saved(original, w, |w.patches| - 1);
  }

  // ----- fixed windows, apart from each other: any order -----

  /** Each hook has one window, inside one mapping, on a nonzero instruction; no two overlap. */
  ghost predicate WindowsApart(views: Views, original: seq<U32>, sizes: seq<nat>, windows: seq<nat>)
  {
    && views.text <= |original| && |windows| == |sizes|
    && (forall id :: 0 <= id < |sizes| ==>
          && InWindow(views, original, windows[id], sizes[id], [])
          && original[windows[id]] != 0)
    && (forall i, j :: 0 <= i < j < |sizes| ==>
          windows[i] + sizes[i] <= windows[j] || windows[j] + sizes[j] <= windows[i])
  }

  /** The operation is on one of the hooks, and installs at its window. */
  predicate AtItsWindow(sizes: seq<nat>, windows: seq<nat>, op: Op)
    requires |windows| == |sizes|
  {
    op.id < |sizes| && (op.Install? ==> op.at == windows[op.id] && |op.instrs| <= sizes[op.id])
  }

  predicate HaveSizes(hooks: seq<HookState>, sizes: seq<nat>)
  {
    |hooks| == |sizes| && forall id :: 0 <= id < |hooks| ==> |hooks[id].orig| == sizes[id]
  }

  ghost predicate PatchesAtWindows(patches: seq<Patch>, sizes: seq<nat>, windows: seq<nat>)
    requires |windows| == |sizes|
  {
    forall p :: p in patches ==> p.id < |sizes| && p.offset == windows[p.id] && p.size == sizes[p.id]
  }

  lemma {:induction false} DropIdKeepsOnly(patches: seq<Patch>, id: nat)
    ensures forall p :: p in DropId(patches, id) ==> p in patches
  {
    if patches != [] && patches[0].id != id {
      DropIdKeepsOnly(patches[1..], id);
    }
  }

  lemma {:induction false} AtUncovered(original: seq<U32>, patches: seq<Patch>, i: nat)
    requires i < |original|
    requires forall p :: p in patches ==> |p.instrs| <= p.size && !Covers(p, i)
    ensures At(original, patches, i) == original[i]
  {
    if patches != [] {
      assert patches[|patches| - 1] in patches;
      AtUncovered(original, patches[..|patches| - 1], i);
    }
  }

  /** The patches of other hooks leave the window of a hook that is not installed alone. */
  lemma WindowUntouched(original: seq<U32>, w: World, sizes: seq<nat>, windows: seq<nat>, id: nat)
    requires Inv(original, w) && WindowsApart(w.views, original, sizes, windows) && HaveSizes(w.hooks, sizes)
    requires PatchesAtWindows(w.patches, sizes, windows) && id < |sizes| && !w.hooks[id].IsInstalled()
    ensures w.code[windows[id]] == original[windows[id]]
  {
    forall p | p in w.patches
      ensures |p.instrs| <= p.size && !Covers(p, windows[id])
    {
      var j :| 0 <= j < |w.patches| && w.patches[j] == p;
      assert Saved(original, w, j);
    }
    AtUncovered(original, w.patches, windows[id]);
  }

  lemma ApartInstall(
      original: seq<U32>, w: World, sizes: seq<nat>, windows: seq<nat>, id: nat, at: nat, instrs: seq<U32>)
    requires Inv(original, w) && WindowsApart(w.views, original, sizes, windows) && HaveSizes(w.hooks, sizes)
    requires PatchesAtWindows(w.patches, sizes, windows) && AtItsWindow(sizes, windows, Install(id, at, instrs))
    ensures Allowed(w, Install(id, at, instrs)) && KeepsApart(w, Do(w, Install(id, at, instrs)), sizes, windows)
  {
    if !w.hooks[id].IsInstalled() {
      WindowUntouched(original, w, sizes, windows, id);
      assert InWindow(w.views, original, windows[id], sizes[id], []);
    }
  }

  lemma ApartUninstall(original: seq<U32>, w: World, sizes: seq<nat>, windows: seq<nat>, id: nat)
    requires Inv(original, w) && WindowsApart(w.views, original, sizes, windows) && HaveSizes(w.hooks, sizes)
    requires PatchesAtWindows(w.patches, sizes, windows) && id < |sizes|
    ensures Allowed(w, Uninstall(id)) && KeepsApart(w, Do(w, Uninstall(id)), sizes, windows)
  {
    forall j, k | 0 <= j < k < |w.patches| && w.patches[j].id == id
      ensures !Clashes(w.patches[j], w.patches[k])
    {
      assert w.patches[j] in w.patches && w.patches[k] in w.patches;
    }
    DropIdKeepsOnly(w.patches, id);
  }

  ghost predicate KeepsApart(w: World, w': World, sizes: seq<nat>, windows: seq<nat>)
    requires |windows| == |sizes|
  {
    w'.views == w.views && HaveSizes(w'.hooks, sizes) && PatchesAtWindows(w'.patches, sizes, windows)
  }

  lemma ApartStep(original: seq<U32>, w: World, sizes: seq<nat>, windows: seq<nat>, op: Op)
    requires Inv(original, w) && WindowsApart(w.views, original, sizes, windows) && HaveSizes(w.hooks, sizes)
    requires PatchesAtWindows(w.patches, sizes, windows) && AtItsWindow(sizes, windows, op)
    ensures Allowed(w, op) && KeepsApart(w, Do(w, op), sizes, windows)
  {
    match op
    case Install(id, at, instrs) => ApartInstall(original, w, sizes, windows, id, at, instrs);
    case Uninstall(id) => ApartUninstall(original, w, sizes, windows, id);
  }

  lemma {:induction false} ApartRunAllowed(
      original: seq<U32>, w: World, sizes: seq<nat>, windows: seq<nat>, ops: seq<Op>)
    requires Inv(original, w) && WindowsApart(w.views, original, sizes, windows) && HaveSizes(w.hooks, sizes)
    requires PatchesAtWindows(w.patches, sizes, windows)
    requires forall op :: op in ops ==> AtItsWindow(sizes, windows, op)
    ensures AllowedRun(w, ops)
    decreases |ops|
  {
    if ops != [] {
      assert ops[0] in ops;
      ApartStep(original, w, sizes, windows, ops[0]);
      StepKeeps(original, w, ops[0]);
      ApartRunAllowed(original, Do(w, ops[0]), sizes, windows, ops[1..]);
    }
  }

  /** With disjoint windows on nonzero instructions, any sequence of installs and uninstalls, in any
      order, keeps the code the original overlaid with the installed hooks' words, and puts the
      original back once none is installed. */
  lemma DisjointAnyOrder(
    views: Views, original: seq<U32>, hooks: seq<HookState>, sizes: seq<nat>, windows: seq<nat>, ops: seq<Op>)
    requires NoneInstalled(hooks) && HaveSizes(hooks, sizes) && WindowsApart(views, original, sizes, windows)
    requires forall op :: op in ops ==> AtItsWindow(sizes, windows, op)
    ensures AllowedRun(World(views, original, hooks, []), ops)
    ensures Inv(original, Run(World(views, original, hooks, []), ops))
    ensures NoneInstalled(Run(World(views, original, hooks, []), ops).hooks) ==>
              Run(World(views, original, hooks, []), ops).code == original
  {
    var w := World(views, original, hooks, []);
    assert Inv(original, w);
    ApartRunAllowed(original, w, sizes, windows, ops);
    RunKeeps(original, w, ops);
    if NoneInstalled(Run(w, ops).hooks) {
      AllUninstalledRestores(views, original, hooks, ops);
    }
  }

  // ----- overlapping windows: last in, first out -----

  /** The patches after an operation, in install order. */
  function StackAfter(sizes: seq<nat>, stack: seq<Patch>, op: Op): seq<Patch>
    requires op.id < |sizes|
  {
    match op
    case Install(id, at, instrs) => if HasPatch(stack, id) then stack else stack + [Patch(id, at, sizes[id], instrs)]
    case Uninstall(id) => if HasPatch(stack, id) then stack[..|stack| - 1] else stack
  }

  /** Only the hook installed last is uninstalled, or one that is not installed. A hook is installed
      at a window inside one mapping that begins on a word other than 0: a word of the original, or
      of the topmost patch that covers it. */
  predicate LifoStep(views: Views, original: seq<U32>, sizes: seq<nat>, stack: seq<Patch>, op: Op)
  {
    && op.id < |sizes|
    && match op
       case Install(id, at, instrs) =>
         HasPatch(stack, id) || (InWindow(views, original, at, sizes[id], instrs) && At(original, stack, at) != 0)
       case Uninstall(id) => HasPatch(stack, id) ==> stack[|stack| - 1].id == id
  }

  predicate LifoRun(views: Views, original: seq<U32>, sizes: seq<nat>, stack: seq<Patch>, ops: seq<Op>)
    decreases |ops|
  {
    ops == [] ||
    (&& LifoStep(views, original, sizes, stack, ops[0])
     && LifoRun(views, original, sizes, StackAfter(sizes, stack, ops[0]), ops[1..]))
  }

  function StackRun(
      views: Views, original: seq<U32>, sizes: seq<nat>, stack: seq<Patch>, ops: seq<Op>): seq<Patch>
    requires LifoRun(views, original, sizes, stack, ops)
    decreases |ops|
  {
    if ops == [] then stack else StackRun(views, original, sizes, StackAfter(sizes, stack, ops[0]), ops[1..])
  }

  /** The hooks that report to be installed are those on the stack. */
  lemma StackIsInstalled(original: seq<U32>, w: World, id: nat)
    requires Inv(original, w) && id < |w.hooks|
    ensures w.hooks[id].IsInstalled() <==> HasPatch(w.patches, id)
  {
    if HasPatch(w.patches, id) {
      var j :| 0 <= j < |w.patches| && w.patches[j].id == id;
      assert Saved(original, w, j);
    }
  }

  /** An operation does to the patches what it does to the stack, and what else stays fixed. */
  ghost predicate KeepsStack(w: World, w': World, sizes: seq<nat>, stack: seq<Patch>)
  {
    w'.views == w.views && HaveSizes(w'.hooks, sizes) && w'.patches == stack
  }

  lemma LifoStepAllowed(original: seq<U32>, w: World, sizes: seq<nat>, op: Op)
    requires Inv(original, w) && HaveSizes(w.hooks, sizes) && LifoStep(w.views, original, sizes, w.patches, op)
    ensures Allowed(w, op) && KeepsStack(w, Do(w, op), sizes, StackAfter(sizes, w.patches, op))
  {
    StackIsInstalled(original, w, op.id);
    if op.Uninstall? && HasPatch(w.patches, op.id) {
      LifoPop(original, w, sizes, op.id);
    }
  }

  lemma LifoPop(original: seq<U32>, w: World, sizes: seq<nat>, id: nat)
    requires Inv(original, w) && HaveSizes(w.hooks, sizes)
    requires w.patches != [] && id == w.patches[|w.patches| - 1].id && id < |w.hooks| && w.hooks[id].IsInstalled()
    ensures Allowed(w, Uninstall(id)) && KeepsStack(w, Do(w, Uninstall(id)), sizes, w.patches[..|w.patches| - 1])
  {
    var last := |w.patches| - 1;
    LastFirst(original, w);
    assert Saved(original, w, last);
    UninstallDoes(w, id);
    DropSplits(w.patches, last);
    assert w.patches[..last] + w.patches[last + 1..] == w.patches[..last];
  }

  lemma {:induction false} LifoRunAllowed(original: seq<U32>, w: World, sizes: seq<nat>, ops: seq<Op>)
    requires Inv(original, w) && HaveSizes(w.hooks, sizes) && LifoRun(w.views, original, sizes, w.patches, ops)
    ensures AllowedRun(w, ops) && Run(w, ops).patches == StackRun(w.views, original, sizes, w.patches, ops)
    decreases |ops|
  {
    if ops != [] {
      LifoStepAllowed(original, w, sizes, ops[0]);
      StepKeeps(original, w, ops[0]);
      LifoRunAllowed(original, Do(w, ops[0]), sizes, ops[1..]);
    }
  }

  /** However windows overlap, a last-in, first-out sequence of installs and uninstalls keeps the
      code the original overlaid with the words of the hooks on its stack, and so puts the original
      back once the stack is empty. */
  lemma LifoRestores(views: Views, original: seq<U32>, hooks: seq<HookState>, sizes: seq<nat>, ops: seq<Op>)
    requires views.text <= |original| && NoneInstalled(hooks) && HaveSizes(hooks, sizes)
    requires LifoRun(views, original, sizes, [], ops)
    ensures AllowedRun(World(views, original, hooks, []), ops)
    ensures Inv(original, Run(World(views, original, hooks, []), ops))
    ensures Run(World(views, original, hooks, []), ops).code
         == Overlay(original, StackRun(views, original, sizes, [], ops))
    ensures StackRun(views, original, sizes, [], ops) == [] ==>
              Run(World(views, original, hooks, []), ops).code == original
  {
    var w := World(views, original, hooks, []);
    assert Inv(original, w);
    LifoRunAllowed(original, w, sizes, ops);
    RunKeeps(original, w, ops);
  }

  // ----- hooks that cannot be given back -----

  /** A hook just installed can be uninstalled if and only if the first word it saved is not 0 (the
      hook reports to be installed by that word) and its window does not reach behind the read-only
      data, which it may when fewer words are written than saved. Then the code is what it was,
      also where a write spilled out of the text mapping; otherwise the words stay, and the hook. */
  lemma UninstallableExactlyWhen(
      views: Views, code: seq<U32>, behind: seq<U32>, hook: HookState, at: nat, instrs: seq<U32>)
    requires hook.orig != [] && !hook.IsInstalled() && views.text <= |code|
    requires |instrs| <= |hook.orig| && at + |instrs| <= |code| && at + |hook.orig| <= |code| + |behind|
    ensures var e := InstallEffect(true, views, code, behind, hook, at, instrs);
            var u := UninstallEffect(true, views, e.code, e.hook);
            && e.rc == Success
            && (u.rc == Success <==> (code + behind)[at] != 0 && at + |hook.orig| <= |code|)
            && (if u.rc == Success then u.code == code else u.code == e.code && u.hook == e.hook)
  {
    if at + |hook.orig| <= |code| {
      var saved := (code + behind)[at..at + |hook.orig|];
      assert saved == code[at..at + |hook.orig|];
      WrittenBack(views, code, at, instrs, saved);
    }
  }

  lemma WrittenBack(views: Views, code: seq<U32>, at: nat, instrs: seq<U32>, saved: seq<U32>)
    requires views.text <= |code| && |instrs| <= |saved| && at + |saved| <= |code| && saved == code[at..at + |saved|]
    ensures Written(views, Written(views, code, at, instrs), at, saved) == code
  {
    var hooked := Written(views, code, at, instrs);
    var back := Written(views, hooked, at, saved);
    var n := if Lands(views, at, |saved|) then |saved| else views.text - at;
    assert back == Overwrite(hooked, at, saved[..n]) by {
      assert saved[..|saved|] == saved;
    }
    forall k | 0 <= k < |code|
      ensures back[k] == code[k]
    {
      if at <= k < at + n {
        assert back[k] == back[at..at + n][k - at];
      }
    }
  }
}
