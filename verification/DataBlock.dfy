/** Data-block symbols: the hex pattern parser of sail/include/util.h and the search that
    sail/src/fakelib.cpp emits for each pattern. */
module DataBlock {
  import opened Words
  import opened Options

  // ----- patterns -----

  predicate IsHexDigit(c: char)
  {
    '0' <= c <= '9' || 'a' <= c <= 'f' || 'A' <= c <= 'F'
  }

  function HexValue(c: char): (v: nat)
    requires IsHexDigit(c)
    ensures v < 16
  {
    if '0' <= c <= '9' then c as nat - '0' as nat
    else if 'a' <= c <= 'f' then c as nat - 'a' as nat + 10
    else c as nat - 'A' as nat + 10
  }

  /** The digits, and what each stands for. */
  lemma HexDigits(c: char)
    ensures IsHexDigit(c) <==> c in "0123456789abcdefABCDEF"
    ensures IsHexDigit(c) ==> c == "0123456789abcdef"[HexValue(c)] || c == "0123456789ABCDEF"[HexValue(c)]
  {
  }

  predicate IsPatternChar(c: char) { c == '?' || IsHexDigit(c) }

  /** A pattern: an even number of hex digits and question marks. */
  predicate WellFormed(hex: string)
  {
    |hex| % 2 == 0 && forall k :: 0 <= k < |hex| ==> IsPatternChar(hex[k])
  }

  /** A question mark stands for any nibble. */
  predicate NibbleAgrees(c: char, nibble: nat)
    requires IsPatternChar(c)
  {
    c == '?' || nibble == HexValue(c)
  }

  /** Memory from `off` on reads as the pattern says, nibble for nibble. */
  ghost predicate Agrees(hex: string, memory: seq<U8>, off: nat)
    requires WellFormed(hex) && off + |hex| / 2 <= |memory|
  {
    forall k :: 0 <= k < |hex| / 2 ==>
      NibbleAgrees(hex[2 * k], memory[off + k] / 16) && NibbleAgrees(hex[2 * k + 1], memory[off + k] % 16)
  }

  function NibbleValue(c: char): nat
    requires IsPatternChar(c)
  {
    if c == '?' then 0 else HexValue(c)
  }

  function NibbleMask(c: char): nat { if c == '?' then 0 else 15 }

  predicate EncodesByte(high: char, low: char, data: nat, mask: nat)
    requires IsPatternChar(high) && IsPatternChar(low)
  {
    data == 16 * NibbleValue(high) + NibbleValue(low) && mask == 16 * NibbleMask(high) + NibbleMask(low)
  }

  /** Data and mask bytes that stand for the pattern. */
  ghost predicate Encodes(hex: string, data: seq<U8>, mask: seq<U8>)
    requires WellFormed(hex)
  {
    && |data| == |mask| == |hex| / 2
    && forall k :: 0 <= k < |data| ==> EncodesByte(hex[2 * k], hex[2 * k + 1], data[k], mask[k])
  }

  /** `hexStringToBytesWithMatch`: fails on an odd length and on any other character. */
  method HexStringToBytesWithMatch(hex: string) returns (ok: bool, out: seq<U8>, outMask: seq<U8>)
    ensures ok <==> WellFormed(hex)
    ensures ok ==> Encodes(hex, out, outMask)
  {
    out, outMask := [], [];
    if |hex| % 2 != 0 {
      return false, out, outMask;
    }
    var i := 0;
    while i < |hex|
      invariant i <= |hex| && i % 2 == 0 && |out| == |outMask| == i / 2
      invariant forall k :: 0 <= k < i ==> IsPatternChar(hex[k])
      invariant forall k :: 0 <= k < |out| ==> EncodesByte(hex[2 * k], hex[2 * k + 1], out[k], outMask[k])
    {
      var byte: U8, mask: U8 := 0, 0xFF;
      if hex[i] == '?' {
        mask := mask - 0xF0;
      } else if IsHexDigit(hex[i]) {
        byte := byte + HexValue(hex[i]) * 16;
      } else {
        return false, out, outMask;
      }
      if hex[i + 1] == '?' {
        mask := mask - 0x0F;
      } else if IsHexDigit(hex[i + 1]) {
        byte := byte + HexValue(hex[i + 1]);
      } else {
        return false, out, outMask;
      }
      out, outMask := out + [byte], outMask + [mask];
      i := i + 2;
    }
    ok := true;
  }

  // ----- masked comparison -----

  predicate ByteMatches(a: nat, b: nat, mask: nat) { BitAnd(a, mask) == BitAnd(b, mask) }

  ghost predicate Matches(compare: seq<U8>, data: seq<U8>, mask: seq<U8>)
    requires |compare| == |data| == |mask|
  {
    forall k :: 0 <= k < |compare| ==> ByteMatches(compare[k], data[k], mask[k])
  }

  lemma AndHalves(a: nat, b: nat)
    ensures BitAnd(a, b) == (if a % 2 == 1 && b % 2 == 1 then 1 else 0) + 2 * BitAnd(a / 2, b / 2)
  {
  }

  /** `&` works on the low `k` bits and the rest separately. */
  lemma {:induction false} AndSplits(a: nat, a': nat, b: nat, b': nat, k: nat, u: nat, v: nat, w: nat)
    requires a < Pow2(k) && b < Pow2(k)
    requires u == Pow2(k) * a' && v == Pow2(k) * b' && w == Pow2(k) * BitAnd(a', b')
    ensures BitAnd(a + u, b + v) == BitAnd(a, b) + w
    decreases k
  {
    if k == 0 {
      AndOfMultiples(a, a', b, b', u, v, w);
    } else {
      var u' := Halved(k, a', u);
      var v' := Halved(k, b', v);
      var w' := Halved(k, BitAnd(a', b'), w);
      HalfBelow(a, k);
      HalfBelow(b, k);
      AndSplits(a / 2, a', b / 2, b', k - 1, u', v', w');
      AndOneBit(a, b, u, v, w, u', v', w');
    }
  }

  lemma AndOfMultiples(a: nat, a': nat, b: nat, b': nat, u: nat, v: nat, w: nat)
    requires a < Pow2(0) && b < Pow2(0)
    requires u == Pow2(0) * a' && v == Pow2(0) * b' && w == Pow2(0) * BitAnd(a', b')
    ensures BitAnd(a + u, b + v) == BitAnd(a, b) + w
  {
    assert a == b == 0 && u == a' && v == b';
  }

  lemma AndOneBit(a: nat, b: nat, u: nat, v: nat, w: nat, u': nat, v': nat, w': nat)
    requires u == 2 * u' && v == 2 * v' && w == 2 * w' && BitAnd(a / 2 + u', b / 2 + v') == BitAnd(a / 2, b / 2) + w'
    ensures BitAnd(a + u, b + v) == BitAnd(a, b) + w
  {
    AndStep(a + u, b + v, a, b, u', v');
    AndHalves(a, b);
  }

  lemma HalfBelow(a: nat, k: nat)
    requires k > 0 && a < Pow2(k)
    ensures a / 2 < Pow2(k - 1)
  {
  }

  lemma Halved(k: nat, x: nat, u: nat) returns (half: nat)
    requires k > 0 && u == Pow2(k) * x
    ensures half == Pow2(k - 1) * x && u == 2 * half
  {
    var p := Pow2(k - 1);
    half := p * x;
    assert Pow2(k) == 2 * p;
    DoubledFactor(p, x);
  }

  lemma AndStep(x: nat, y: nat, a: nat, b: nat, u: nat, v: nat)
    requires x == a + 2 * u && y == b + 2 * v
    ensures BitAnd(x, y) == (if a % 2 == 1 && b % 2 == 1 then 1 else 0) + 2 * BitAnd(a / 2 + u, b / 2 + v)
  {
    DivModUnique(x, 2, a / 2 + u, a % 2);
    DivModUnique(y, 2, b / 2 + v, b % 2);
    AndHalves(x, y);
  }

  lemma AndOfBytes(a: U8, a': nat, b: U8, b': nat, k: nat)
    requires k == 8
    ensures BitAnd(a + TWO8 * a', b + TWO8 * b') == BitAnd(a, b) + TWO8 * BitAnd(a', b')
  {
    assert Pow2(k) == TWO8 by { assert Pow2(8) == 256; }
    AndSplits(a, a', b, b', k, TWO8 * a', TWO8 * b', TWO8 * BitAnd(a', b'));
  }

  lemma SplitEqual(r: nat, q: nat, r': nat, q': nat, m: nat)
    requires r < m && r' < m
    ensures r + m * q == r' + m * q' <==> r == r' && q == q'
  {
    DivModUnique(r + m * q, m, q, r);
    DivModUnique(r' + m * q', m, q', r');
  }

  lemma FirstByteSplits(c: U8, c': nat, d: U8, d': nat, m: U8, m': nat)
    ensures ByteMatches(c + TWO8 * c', d + TWO8 * d', m + TWO8 * m')
       <==> ByteMatches(c, d, m) && ByteMatches(c', d', m')
  {
    AndOfBytes(c, c', m, m', 8);
    AndOfBytes(d, d', m, m', 8);
    AndAtMost(c, m);
    AndAtMost(d, m);
    SplitEqual(BitAnd(c, m), BitAnd(c', m'), BitAnd(d, m), BitAnd(d', m'), TWO8);
  }

  /** Words of any width compare masked exactly as their bytes do. */
  lemma {:induction false} WordsCompareAsBytes(compare: seq<U8>, data: seq<U8>, mask: seq<U8>)
    requires |compare| == |data| == |mask|
    ensures ByteMatches(Word(compare), Word(data), Word(mask)) <==> Matches(compare, data, mask)
  {
    if compare != [] {
      WordsCompareAsBytes(compare[1..], data[1..], mask[1..]);
      FirstByteSplits(compare[0], Word(compare[1..]), data[0], Word(data[1..]), mask[0], Word(mask[1..]));
      MatchesSplits(compare, data, mask, 1);
    }
  }

  lemma MatchesSplits(compare: seq<U8>, data: seq<U8>, mask: seq<U8>, at: nat)
    requires |compare| == |data| == |mask| && at <= |compare|
    ensures Matches(compare, data, mask) <==>
      Matches(compare[..at], data[..at], mask[..at]) && Matches(compare[at..], data[at..], mask[at..])
  {
    if Matches(compare[..at], data[..at], mask[..at]) && Matches(compare[at..], data[at..], mask[at..]) {
      forall k | 0 <= k < |compare|
        ensures ByteMatches(compare[k], data[k], mask[k])
      {
        if k < at {
          assert ByteMatches(compare[..at][k], data[..at][k], mask[..at][k]);
        } else {
          assert ByteMatches(compare[at..][k - at], data[at..][k - at], mask[at..][k - at]);
        }
      }
    }
  }

  lemma NextWord(compare: seq<U8>, data: seq<U8>, mask: seq<U8>, done: nat, width: nat)
    requires |compare| == |data| == |mask| && done + width <= |compare|
    requires Matches(compare[..done], data[..done], mask[..done])
    ensures ByteMatches(
              Word(compare[done..done + width]), Word(data[done..done + width]), Word(mask[done..done + width]))
       <==> Matches(compare[..done + width], data[..done + width], mask[..done + width])
  {
    var upTo := done + width;
    WordsCompareAsBytes(compare[done..upTo], data[done..upTo], mask[done..upTo]);
    MatchesSplits(compare[..upTo], data[..upTo], mask[..upTo], done);
    assert compare[..upTo][..done] == compare[..done] && compare[..upTo][done..] == compare[done..upTo];
    assert data[..upTo][..done] == data[..done] && data[..upTo][done..] == data[done..upTo];
    assert mask[..upTo][..done] == mask[..done] && mask[..upTo][done..] == mask[done..upTo];
  }

  method CompareWord(compare: seq<U8>, data: seq<U8>, mask: seq<U8>, at: nat, width: nat) returns (same: bool)
    requires |compare| == |data| == |mask| && at + width <= |compare|
    requires Matches(compare[..at], data[..at], mask[..at])
    ensures same ==> Matches(compare[..at + width], data[..at + width], mask[..at + width])
    ensures !same ==> !Matches(compare, data, mask)
  {
    NextWord(compare, data, mask, at, width);
    MatchesSplits(compare, data, mask, at + width);
    var m := Word(mask[at..at + width]);
    same := BitAnd(Word(compare[at..at + width]), m) == BitAnd(Word(data[at..at + width]), m);
  }

  /** `compareMask`: as many 64-bit words as fit, then a 32-bit, a 16-bit word and bytes. */
  method CompareMask(compare: seq<U8>, data: seq<U8>, mask: seq<U8>) returns (same: bool)
    requires |compare| == |data| == |mask|
    ensures same <==> Matches(compare, data, mask)
  {
    var n := |compare|;
    var n8 := n / 8;
    var i := 0;
    while i < n8
      invariant i <= n8
      invariant Matches(compare[..i * 8], data[..i * 8], mask[..i * 8])
    {
      same := CompareWord(compare, data, mask, i * 8, 8);
      if !same {
        return;
      }
      i := i + 1;
    }
    var processed := n8 * 8;
    if n - processed >= 4 {
      same := CompareWord(compare, data, mask, processed, 4);
      if !same {
        return;
      }
      processed := processed + 4;
    }
    if n - processed >= 2 {
      same := CompareWord(compare, data, mask, processed, 2);
      if !same {
        return;
      }
      processed := processed + 2;
    }
    same := CompareBytes(compare, data, mask, processed);
  }

  method CompareBytes(compare: seq<U8>, data: seq<U8>, mask: seq<U8>, processed: nat) returns (same: bool)
    requires |compare| == |data| == |mask| && processed <= |compare|
    requires Matches(compare[..processed], data[..processed], mask[..processed])
    ensures same <==> Matches(compare, data, mask)
  {
    var i := processed;
    while i < |compare|
      invariant processed <= i <= |compare|
      invariant Matches(compare[..i], data[..i], mask[..i])
    {
      if BitAnd(compare[i], mask[i]) != BitAnd(data[i], mask[i]) {
        assert !ByteMatches(compare[i], data[i], mask[i]);
        return false;
      }
      assert forall k :: 0 <= k < i ==> ByteMatches(compare[..i][k], data[..i][k], mask[..i][k]);
      i := i + 1;
    }
    assert compare[..i] == compare && data[..i] == data && mask[..i] == mask;
    same := true;
  }

  // ----- bytes against the pattern -----

  lemma NibbleAnd(x: nat, c: char, k: nat)
    requires x < 16 && IsPatternChar(c) && k == 4
    ensures BitAnd(x, NibbleMask(c)) == if c == '?' then 0 else x
  {
    assert Pow2(k) == 16 by { assert Pow2(4) == 16; }
    AndLowMask(x, k);
  }

  lemma ByteAnd(high: char, low: char, h: nat, l: nat, k: nat)
    requires h < 16 && l < 16 && IsPatternChar(high) && IsPatternChar(low) && k == 4
    ensures BitAnd(16 * h + l, 16 * NibbleMask(high) + NibbleMask(low))
         == 16 * (if high == '?' then 0 else h) + if low == '?' then 0 else l
  {
    assert Pow2(k) == 16 by { assert Pow2(4) == 16; }
    var mh, ml := NibbleMask(high), NibbleMask(low);
    AndSplits(l, h, ml, mh, k, 16 * h, 16 * mh, 16 * BitAnd(h, mh));
    NibbleAnd(h, high, k);
    NibbleAnd(l, low, k);
  }

  lemma ByteAgrees(high: char, low: char, byte: U8, data: U8, mask: U8)
    requires IsPatternChar(high) && IsPatternChar(low) && EncodesByte(high, low, data, mask)
    ensures ByteMatches(byte, data, mask) <==> NibbleAgrees(high, byte / 16) && NibbleAgrees(low, byte % 16)
  {
    ByteAnd(high, low, byte / 16, byte % 16, 4);
    ByteAnd(high, low, NibbleValue(high), NibbleValue(low), 4);
  }

  /** The masked comparison is the nibble pattern. */
  lemma MatchesIsAgrees(hex: string, data: seq<U8>, mask: seq<U8>, memory: seq<U8>, off: nat)
    requires WellFormed(hex) && Encodes(hex, data, mask) && off + |data| <= |memory|
    ensures Matches(memory[off..off + |data|], data, mask) <==> Agrees(hex, memory, off)
  {
    forall k | 0 <= k < |data|
      ensures ByteMatches(memory[off + k], data[k], mask[k])
         <==> NibbleAgrees(hex[2 * k], memory[off + k] / 16) && NibbleAgrees(hex[2 * k + 1], memory[off + k] % 16)
    {
      ByteAgrees(hex[2 * k], hex[2 * k + 1], memory[off + k], data[k], mask[k]);
    }
  }

  // ----- the search -----

  /** `off` is one of the places the search looks at: every fourth byte, and never the last
      position the block would fit at. */
  predicate Searched(memory: seq<U8>, n: nat, off: nat) { off % 4 == 0 && off + n < |memory| }

  ghost predicate MatchesAt(memory: seq<U8>, data: seq<U8>, mask: seq<U8>, off: nat)
  {
    |data| == |mask| && off + |data| <= |memory| && Matches(memory[off..off + |data|], data, mask)
  }

  /** The emitted search over `memory`, mapped at `start`. The result 0 also stands for a block found
      at address 0. The places searched end before the last word of the address space. */
  method Search(memory: seq<U8>, start: U64, data: seq<U8>, mask: seq<U8>) returns (address: U64)
    requires |data| == |mask| <= start + |memory| <= TWO64 && start + |memory| - |data| <= TWO64 - 4
    ensures address == 0 ==>
      || (start == 0 && Searched(memory, |data|, 0) && MatchesAt(memory, data, mask, 0))
      || forall off: nat :: Searched(memory, |data|, off) ==> !MatchesAt(memory, data, mask, off)
    ensures address != 0 ==>
      && address >= start && Searched(memory, |data|, address - start) && MatchesAt(memory, data, mask, address - start)
      && forall off: nat :: Searched(memory, |data|, off) && off < address - start ==>
           !MatchesAt(memory, data, mask, off)
  {
    var end := Wrap64(start + |memory| - |data|);
    var search := start;
    while search < end
      invariant start <= search <= TWO64 - 1 && (search - start) % 4 == 0
      invariant forall off: nat :: Searched(memory, |data|, off) && off < search - start ==>
          !MatchesAt(memory, data, mask, off)
    {
      var off := search - start;
      var same := CompareMask(memory[off..off + |data|], data, mask);
      if same {
        return search;
      }
      search := Wrap64(search + 4);
    }
    address := 0;
  }

  /** What the search should give: the least searched offset that agrees with the pattern. */
  ghost predicate IsFirstAgreeing(hex: string, memory: seq<U8>, found: Option<nat>)
    requires WellFormed(hex)
  {
    match found
    case None => forall off: nat :: Searched(memory, |hex| / 2, off) ==> !Agrees(hex, memory, off)
    case Some(at) =>
      && Searched(memory, |hex| / 2, at) && Agrees(hex, memory, at)
      && forall off: nat :: Searched(memory, |hex| / 2, off) && off < at ==> !Agrees(hex, memory, off)
  }

  /** Parsing a pattern and searching for it: the address of the first place that agrees with
      every given nibble, 0 without one, and no search for a malformed pattern. */
  method Locate(hex: string, memory: seq<U8>, start: U64) returns (address: Option<U64>)
    requires |hex| / 2 <= start + |memory| <= TWO64 && start + |memory| - |hex| / 2 <= TWO64 - 4
    ensures address.None? <==> !WellFormed(hex)
    ensures address.Some? ==>
      if address.value == 0 then
        IsFirstAgreeing(hex, memory, None) || (start == 0 && IsFirstAgreeing(hex, memory, Some(0)))
      else address.value >= start && IsFirstAgreeing(hex, memory, Some(address.value - start))
  {
    var ok, data, mask := HexStringToBytesWithMatch(hex);
    if !ok {
      return None;
    }
    var found := Search(memory, start, data, mask);
    forall off: nat | Searched(memory, |data|, off)
      ensures MatchesAt(memory, data, mask, off) <==> Agrees(hex, memory, off)
    {
      MatchesIsAgrees(hex, data, mask, memory, off);
    }
    address := Some(found);
  }

  /** A block that is there at an aligned place is found unless it ends exactly where the region
      does: the loop stops before the last position. */
  lemma MissedExactlyAtEnd(hex: string, memory: seq<U8>, off: nat)
    requires WellFormed(hex) && off % 4 == 0 && off + |hex| / 2 <= |memory| && Agrees(hex, memory, off)
    requires forall other: nat :: other % 4 == 0 && other + |hex| / 2 <= |memory| && Agrees(hex, memory, other) ==>
        other == off
    ensures IsFirstAgreeing(hex, memory, None) <==> off + |hex| / 2 == |memory|
    ensures IsFirstAgreeing(hex, memory, Some(off)) <==> off + |hex| / 2 < |memory|
  {
    assert Searched(memory, |hex| / 2, off) <==> off + |hex| / 2 < |memory|;
  }
}
