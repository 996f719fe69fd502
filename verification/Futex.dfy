/** The futex lock of addons/Rust/src/mutex.rs as a protocol: any number of threads, one atomic
    step of one thread at a time, kernel calls returning whatever they like. */
module Futex {
  import opened Words

  const IDLE: U32 := 0
  const TAKEN: U32 := 1

  /** Where a thread is. Inside the section it bumps a shared counter by reading it and writing it
      back; `blocking` tells `with_lock` from `try_with_lock`. */
  datatype Pc =
    | Outside
    | Exchanging(blocking: bool)
    | Entered
    | HasRead(local: nat)
    | HasBumped
    | Signalling
    | Waiting
    | Panicked

  /** `bumps` counts the completed bumps. */
  datatype World = World(word: U32, threads: seq<Pc>, counter: nat, bumps: nat)

  /** A step of thread `t`; `input` is what the caller asks for or the kernel answers. */
  datatype Step = Step(t: nat, input: U32)

  /** `panic_on_bad_result`. */
  predicate GoodResult(result: U32) { result == 0 || result == 0xFA01 }

  function Move(w: World, t: nat, pc: Pc): World
    requires t < |w.threads|
  {
    w.(threads := w.threads[t := pc])
  }

  function Next(w: World, s: Step): World
    requires s.t < |w.threads|
  {
    match w.threads[s.t]
    case Outside => Move(w, s.t, Exchanging(s.input != 0))
    case Exchanging(blocking) =>
      // compare_exchange(Idle, Taken)
      if w.word == IDLE then Move(w, s.t, Entered).(word := TAKEN)
      else Move(w, s.t, if blocking then Waiting else Outside)
    case Entered => Move(w, s.t, HasRead(w.counter))
    case HasRead(local) => Move(w, s.t, HasBumped).(counter := local + 1, bumps := w.bumps + 1)
    case HasBumped => Move(w, s.t, Signalling).(word := IDLE)
    case Signalling => Move(w, s.t, if GoodResult(s.input) then Outside else Panicked)
    case Waiting => Move(w, s.t, if GoodResult(s.input) then Exchanging(true) else Panicked)
    case Panicked => w
  }

  /** Between a successful exchange and the store of `Idle`. */
  predicate InSection(pc: Pc) { pc.Entered? || pc.HasRead? || pc.HasBumped? }

  /** At most one thread is in the section, the word is `Taken` exactly when one is, a value read
      inside is still current, and no bump was lost. */
  ghost predicate Inv(w: World)
  {
    && (w.word == IDLE || w.word == TAKEN)
    && (forall i, j :: 0 <= i < j < |w.threads| ==> !(InSection(w.threads[i]) && InSection(w.threads[j])))
    && (w.word == TAKEN <==> exists i :: 0 <= i < |w.threads| && InSection(w.threads[i]))
    && (forall i :: 0 <= i < |w.threads| && w.threads[i].HasRead? ==> w.threads[i].local == w.counter)
    && w.counter == w.bumps
  }

  lemma StepKeeps(w: World, s: Step)
    requires Inv(w) && s.t < |w.threads|
    ensures Inv(Next(w, s)) && |Next(w, s).threads| == |w.threads|
  {
    var w' := Next(w, s);
    var pc := w.threads[s.t];
    assert forall i :: 0 <= i < |w.threads| && i != s.t ==> w'.threads[i] == w.threads[i];
    if InSection(pc) {
      if InSection(w'.threads[s.t]) {
        assert w'.word == w.word == TAKEN;
      }
    } else if InSection(w'.threads[s.t]) {
      assert w'.word == TAKEN;
    } else if w.word == TAKEN {
      var i :| 0 <= i < |w.threads| && InSection(w.threads[i]);
      assert InSection(w'.threads[i]);
    }
  }

  ghost function Run(w: World, steps: seq<Step>): World
    requires forall k :: 0 <= k < |steps| ==> steps[k].t < |w.threads|
    decreases |steps|
  {
    if steps == [] then w
    else
      var w' := Next(w, steps[0]);
      assert |w'.threads| == |w.threads|;
      Run(w', steps[1..])
  }

  /** The lock as `new` makes it, with `n` threads outside. */
  function Initial(n: nat): (w: World)
    ensures |w.threads| == n
  {
    World(IDLE, seq(n, _ => Outside), 0, 0)
  }

  lemma {:induction false} RunKeeps(w: World, steps: seq<Step>)
    requires Inv(w) && forall k :: 0 <= k < |steps| ==> steps[k].t < |w.threads|
    ensures Inv(Run(w, steps)) && |Run(w, steps).threads| == |w.threads|
    decreases |steps|
  {
    if steps != [] {
      StepKeeps(w, steps[0]);
      RunKeeps(Next(w, steps[0]), steps[1..]);
    }
  }

  /** Mutual exclusion, for every number of threads and every interleaving: two threads are never
      in the section together, the word tells whether one is (`is_locked`), and the counter is
      the number of completed bumps. */
  lemma MutualExclusion(n: nat, steps: seq<Step>, i: nat, j: nat)
    requires forall k :: 0 <= k < |steps| ==> steps[k].t < n
    requires i < n && j < n
    ensures var w := Run(Initial(n), steps);
            && |w.threads| == n
            && (InSection(w.threads[i]) && InSection(w.threads[j]) ==> i == j)
            && w.word == (if exists k :: 0 <= k < n && InSection(w.threads[k]) then 1 else 0)
            && w.counter == w.bumps
  {
    RunKeeps(Initial(n), steps);
    var w := Run(Initial(n), steps);
    if InSection(w.threads[i]) && InSection(w.threads[j]) {
      assert !(i < j) && !(j < i);
    }
  }

  /** A thread that panicked over a kernel result does not hold the lock, so it stays available to
      the others: some exchange by a thread outside the section succeeds whenever nobody is in it. */
  lemma PanicLeavesTheLock(n: nat, steps: seq<Step>, t: nat)
    requires forall k :: 0 <= k < |steps| ==> steps[k].t < n
    requires t < n && |Run(Initial(n), steps).threads| == n && Run(Initial(n), steps).threads[t].Exchanging?
    ensures var w := Run(Initial(n), steps);
            InSection(Next(w, Step(t, 0)).threads[t]) <==> forall k :: 0 <= k < n ==> !InSection(w.threads[k])
  {
    RunKeeps(Initial(n), steps);
  }

  // ----- what a call does -----

  /** A thread panics exactly on a kernel result other than success and a timeout. */
  lemma PanicsExactlyWhen(w: World, s: Step)
    requires s.t < |w.threads| && !w.threads[s.t].Panicked?
    ensures Next(w, s).threads[s.t].Panicked?
       <==> (w.threads[s.t].Signalling? || w.threads[s.t].Waiting?) && s.input != 0 && s.input != 0xFA01
  {
  }

  /** `try_with_lock` never waits: its exchange enters the section if nobody is in it, else it returns. */
  lemma TryNeverWaits(n: nat, steps: seq<Step>, t: nat, input: U32)
    requires forall k :: 0 <= k < |steps| ==> steps[k].t < n
    requires t < n && |Run(Initial(n), steps).threads| == n
    requires Run(Initial(n), steps).threads[t] == Exchanging(false)
    ensures var w := Run(Initial(n), steps);
            Next(w, Step(t, input)).threads[t]
              == if exists k :: 0 <= k < n && InSection(w.threads[k]) then Outside else Entered
  {
    RunKeeps(Initial(n), steps);
  }

  /** Where a thread is that called `with_lock` and has not entered the section. */
  predicate Acquiring(pc: Pc) { pc == Exchanging(true) || pc.Waiting? }

  /** `with_lock` returns only through the section: whatever the others do, a thread that wants the
      lock goes on wanting it until it enters, unless it panics. */
  lemma {:induction false} LockReturnsThroughTheSection(w: World, steps: seq<Step>, t: nat)
    requires forall k :: 0 <= k < |steps| ==> steps[k].t < |w.threads|
    requires t < |w.threads| && Acquiring(w.threads[t])
    ensures |Run(w, steps).threads| == |w.threads|
    ensures Acquiring(Run(w, steps).threads[t]) || Run(w, steps).threads[t].Panicked?
         || exists k :: 0 <= k <= |steps| && EntersAfter(w, steps, t, k)
    decreases |steps|
  {
    if steps != [] {
      var next := Next(w, steps[0]);
      if next.threads[t].Entered? {
        assert steps[..1][1..] == [] && Run(w, steps[..1]) == next;
        RunLength(next, steps[1..]);
        assert EntersAfter(w, steps, t, 1);
      } else if next.threads[t].Panicked? {
        StaysPanicked(next, steps[1..], t);
      } else {
        LockReturnsThroughTheSection(next, steps[1..], t);
        if k :| 0 <= k <= |steps| - 1 && EntersAfter(next, steps[1..], t, k) {
          assert steps[..k + 1][0] == steps[0] && steps[..k + 1][1..] == steps[1..][..k];
          assert EntersAfter(w, steps, t, k + 1);
        }
      }
    }
  }

  /** After `k` of the steps the thread has just entered the section. */
  ghost predicate EntersAfter(w: World, steps: seq<Step>, t: nat, k: nat)
    requires (forall i :: 0 <= i < |steps| ==> steps[i].t < |w.threads|) && k <= |steps|
  {
    t < |Run(w, steps[..k]).threads| && Run(w, steps[..k]).threads[t].Entered?
  }

  lemma {:induction false} RunLength(w: World, steps: seq<Step>)
    requires forall k :: 0 <= k < |steps| ==> steps[k].t < |w.threads|
    ensures |Run(w, steps).threads| == |w.threads|
    decreases |steps|
  {
    if steps != [] {
      RunLength(Next(w, steps[0]), steps[1..]);
    }
  }

  lemma {:induction false} StaysPanicked(w: World, steps: seq<Step>, t: nat)
    requires forall k :: 0 <= k < |steps| ==> steps[k].t < |w.threads|
    requires t < |w.threads| && w.threads[t].Panicked?
    ensures |Run(w, steps).threads| == |w.threads| && Run(w, steps).threads[t].Panicked?
    decreases |steps|
  {
    if steps != [] {
      StaysPanicked(Next(w, steps[0]), steps[1..], t);
    }
  }
}
