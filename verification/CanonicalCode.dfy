/** The canonical prefix code of section 3.2.2 of RFC 1951 and of Annex C of ITU-T T.81,
    stated on the number of codes of each length: the codes of one length are consecutive
    numbers, and the first of them is twice the number after the last code one bit shorter. */
module CanonicalCodes {
  import opened BitStreams

  /** `counts[len]` is the number of codes of `len` bits; there is no code of no bits. */
  ghost predicate IsCounts(counts: seq<nat>) { 0 < |counts| && counts[0] == 0 }

  ghost function First(counts: seq<nat>, len: nat): nat
    requires len < |counts|
  {
    if len == 0 then 0 else 2 * (First(counts, len - 1) + counts[len - 1])
  }

  /** The number of codes shorter than `len` bits. */
  ghost function Offset(counts: seq<nat>, len: nat): nat
    requires len <= |counts|
  {
    if len == 0 then 0 else Offset(counts, len - 1) + counts[len - 1]
  }

  /** Not over-subscribed: the codes of every length fit in that many bits. */
  ghost predicate Kraft(counts: seq<nat>) { KraftBelow(counts, |counts|) }

  ghost predicate KraftBelow(counts: seq<nat>, n: nat)
    requires n <= |counts|
  {
    forall len :: 1 <= len < n ==> Left(counts, len) >= 0
  }

  /** How many codes of `len` bits are left unassigned. */
  ghost function Left(counts: seq<nat>, len: nat): int
    requires len < |counts|
  {
    Pow2(len) - First(counts, len) - counts[len]
  }

  lemma LeftStart(counts: seq<nat>)
    requires IsCounts(counts)
    ensures Left(counts, 0) == 1
  {
  }

  /** The running count `huffman_build` keeps. */
  lemma LeftStep(counts: seq<nat>, len: nat)
    requires 1 <= len < |counts|
    ensures Left(counts, len) == 2 * Left(counts, len - 1) - counts[len]
  {
  }

  /** The `j`-th code of `len` bits begins `bits`. */
  ghost predicate Matches(counts: seq<nat>, len: nat, j: nat, bits: BitSeq)
  {
    && 1 <= len < |counts| && len <= |bits| && j < counts[len]
    && MsbValue(bits[..len]) == First(counts, len) + j
  }

  /** The bits of the `j`-th code of `len` bits. */
  ghost function CodeBits(counts: seq<nat>, len: nat, j: nat): (s: BitSeq)
    requires len < |counts|
    ensures |s| == len
  {
    High(First(counts, len) + j, len)
  }

  lemma MsbValueGrows(bits: BitSeq, len: nat)
    requires len < |bits|
    ensures MsbValue(bits[..len + 1]) == 2 * MsbValue(bits[..len]) + BitValue(bits[len])
  {
    assert bits[..len + 1][..len] == bits[..len];
  }

  lemma {:induction false} OffsetMonotone(counts: seq<nat>, l1: nat, l2: nat)
    requires l1 < l2 <= |counts|
    ensures Offset(counts, l1) + counts[l1] <= Offset(counts, l2)
  {
    if l1 + 1 < l2 {
      OffsetMonotone(counts, l1, l2 - 1);
    }
  }

  /** Bits that lie below the end of the `l1`-bit codes lie below every longer code. */
  lemma {:induction false} ShorterIsBelow(counts: seq<nat>, l1: nat, l2: nat, bits: BitSeq)
    requires l1 < l2 < |counts| && l2 <= |bits|
    requires MsbValue(bits[..l1]) < First(counts, l1) + counts[l1]
    ensures MsbValue(bits[..l2]) < First(counts, l2)
  {
    MsbValueGrows(bits, l2 - 1);
    if l1 + 1 < l2 {
      ShorterIsBelow(counts, l1, l2 - 1, bits);
    }
  }

  /** The code is prefix-free: at most one code begins any bit string. */
  lemma PrefixFree(counts: seq<nat>, l1: nat, j1: nat, l2: nat, j2: nat, bits: BitSeq)
    requires Matches(counts, l1, j1, bits) && Matches(counts, l2, j2, bits)
    ensures l1 == l2 && j1 == j2
  {
    if l1 < l2 {
      ShorterIsBelow(counts, l1, l2, bits);
    } else if l2 < l1 {
      ShorterIsBelow(counts, l2, l1, bits);
    }
  }

  /** A code begins the string it was written in front of. */
  lemma CodeMatches(counts: seq<nat>, len: nat, j: nat, tail: BitSeq)
    requires Kraft(counts) && 1 <= len < |counts| && j < counts[len]
    ensures Matches(counts, len, j, CodeBits(counts, len, j) + tail)
    ensures (CodeBits(counts, len, j) + tail)[len..] == tail
  {
    assert (CodeBits(counts, len, j) + tail)[..len] == CodeBits(counts, len, j);
    assert Left(counts, len) >= 0;
    MsbValueOfHigh(First(counts, len) + j, len);
  }

  /** Nothing but the code itself begins that way. */
  lemma MatchesOnlyCode(counts: seq<nat>, len: nat, j: nat, bits: BitSeq)
    requires Matches(counts, len, j, bits)
    ensures bits[..len] == CodeBits(counts, len, j)
  {
    HighOfMsbValue(bits[..len]);
  }

  /** The scan both decoders make: no code of at most `len` bits begins `bits`, and the first
      `len` bits lie at or above the first code that could still come. */
  ghost predicate PastLength(counts: seq<nat>, len: nat, bits: BitSeq)
  {
    && len < |counts| && len <= |bits|
    && First(counts, len) + counts[len] <= MsbValue(bits[..len])
    && forall l: nat, j: nat :: l <= len ==> !Matches(counts, l, j, bits)
  }

  lemma PastNothing(counts: seq<nat>, bits: BitSeq)
    requires IsCounts(counts)
    ensures PastLength(counts, 0, bits)
  {
  }

  /** One step of the scan: either the next length matches or the scan goes on. */
  lemma ScanStep(counts: seq<nat>, len: nat, bits: BitSeq)
    requires PastLength(counts, len, bits) && len + 1 < |counts| && len + 1 <= |bits|
    ensures First(counts, len + 1) <= MsbValue(bits[..len + 1])
    ensures var v := MsbValue(bits[..len + 1]);
      if v < First(counts, len + 1) + counts[len + 1]
      then Matches(counts, len + 1, v - First(counts, len + 1), bits)
      else PastLength(counts, len + 1, bits)
  {
    MsbValueGrows(bits, len);
    var v := MsbValue(bits[..len + 1]);
    if First(counts, len + 1) + counts[len + 1] <= v {
      forall l: nat, j: nat | l <= len + 1 ensures !Matches(counts, l, j, bits) {
        if l <= len {
          assert !Matches(counts, l, j, bits);
        }
      }
    }
  }

  /** When the bits or the lengths run out, no code begins them. */
  lemma NothingLonger(counts: seq<nat>, len: nat, bits: BitSeq)
    requires PastLength(counts, len, bits) && (len == |bits| || len + 1 == |counts|)
    ensures forall l: nat, j: nat :: !Matches(counts, l, j, bits)
  {
    forall l: nat, j: nat ensures !Matches(counts, l, j, bits) {
      if l <= len {
        assert !Matches(counts, l, j, bits);
      }
    }
  }
}
