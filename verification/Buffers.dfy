/** Bytes written at positions of a buffer or file, and what stays readable. */
module Buffers {
  import opened Words

  function Zeros(n: nat): (z: seq<U8>)
    ensures |z| == n && forall k :: 0 <= k < n ==> z[k] == 0
  {
    seq(n, _ => 0)
  }

  /** Writing past the end fills the gap with zeros; writing nothing does nothing. */
  function WriteAt(file: seq<U8>, pos: nat, data: seq<U8>): (r: seq<U8>)
    ensures |r| == if data != [] && pos + |data| > |file| then pos + |data| else |file|
    ensures forall k :: pos <= k < pos + |data| ==> r[k] == data[k - pos]
    ensures forall k :: 0 <= k < |r| && !(pos <= k < pos + |data|) ==> r[k] == if k < |file| then file[k] else 0
  {
    if data == [] then file
    else if pos >= |file| then file + Zeros(pos - |file|) + data
    else file[..pos] + data + if pos + |data| < |file| then file[pos + |data|..] else []
  }

  /** `data` is in the file from `at` on. */
  ghost predicate Holds(file: seq<U8>, at: nat, data: seq<U8>)
  {
    data == [] || (at + |data| <= |file| && file[at..at + |data|] == data)
  }

  /** Writing on from where a write ended is one write. */
  lemma WriteOn(file: seq<U8>, pos: nat, a: seq<U8>, b: seq<U8>)
    ensures WriteAt(WriteAt(file, pos, a), pos + |a|, b) == WriteAt(file, pos, a + b)
  {
  }

  lemma HoldsWritten(file: seq<U8>, pos: nat, data: seq<U8>)
    ensures Holds(WriteAt(file, pos, data), pos, data)
  {
  }

  lemma StillHolds(file: seq<U8>, pos: nat, data: seq<U8>, at: nat, other: seq<U8>)
    requires Holds(file, at, other) && (pos + |data| <= at || at + |other| <= pos)
    ensures Holds(WriteAt(file, pos, data), at, other)
  {
  }
}
