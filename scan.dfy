/** Scanning a buffer codepoint by codepoint, as `utf8_len` and the loops of
    `f_utf8_sub` and `f_utf8_reverse` in src/api/utf8.c do: decode at offset 0,
    move to the offset the decoder returns, and stop once the offset reaches
    or passes the end of the buffer. */
module Scan {
  import opened Codec

  /** The codepoints decoded from offset pos to the end of the buffer.
      Malformed input counts as one U+FFFD per decoding step. */
  function Codepoints(s: seq<Byte>, pos: nat): (r: seq<nat>)
    requires pos <= |s| + 1
    ensures pos < |s| ==> 1 <= |r| <= |s| - pos
    ensures pos >= |s| ==> r == []
    decreases |s| + 1 - pos
  {
    if pos >= |s| then []
    else
      var d := Decode(s, pos);
      [d.cp] + Codepoints(s, d.next)
  }

  /** The number of codepoints of a buffer. */
  function Length(s: seq<Byte>): nat {
    |Codepoints(s, 0)|
  }

  /** The byte offset reached after k decoding steps from offset 0 (steps
      stop moving once the end is reached or passed). */
  function Offset(s: seq<Byte>, k: nat): (p: nat)
    ensures p <= |s| + 1
  {
    if k == 0 then 0
    else
      var q := Offset(s, k - 1);
      if q >= |s| then q else Decode(s, q).next
  }

  /** `utf8_len(s, |s|)`: 0 for the empty buffer, otherwise the number of
      decoding steps until the cursor reaches or passes the end. */
  method Utf8Len(s: seq<Byte>) returns (result: nat)
    ensures result == Length(s)
  {
    if |s| == 0 {
      return 0;
    }
    var p: nat := 0;
    result := 0;
    while p < |s|
      invariant p <= |s| + 1
      invariant result + |Codepoints(s, p)| == Length(s)
      decreases |s| + 1 - p
    {
      var cp;
      cp, p := DecodeAt(s, p);
      result := result + 1;
    }
  }

  /** The length is 0 exactly for the empty buffer, and never more than the
      number of bytes. */
  lemma LengthBounds(s: seq<Byte>)
    ensures Length(s) == 0 <==> |s| == 0
    ensures Length(s) <= |s|
  {
  }

  /** After k steps (k at most the length), Length(s) - k codepoints remain. */
  lemma {:induction false} RemainingAfter(s: seq<Byte>, k: nat)
    requires k <= Length(s)
    ensures |Codepoints(s, Offset(s, k))| == Length(s) - k
  {
    if k > 0 {
      var j := k - 1;
      var q := Offset(s, j);
      RemainingAfter(s, j);
      var d := Decode(s, q);
      CodepointsStep(s, q, d, Codepoints(s, d.next));
      OffsetStep(s, j, q, d);
    }
  }

  /** Decoding from q inside the buffer yields the codepoint read at q, then
      those that follow. */
  lemma CodepointsStep(s: seq<Byte>, q: nat, d: Decoded, rest: seq<nat>)
    requires q < |s| && Decode(s, q) == d && Codepoints(s, d.next) == rest
    ensures Codepoints(s, q) == [d.cp] + rest
  {
  }

  /** The length is the least number of decoding steps that reaches or passes
      the end of the buffer. */
  lemma LengthIsLeastSteps(s: seq<Byte>)
    ensures Offset(s, Length(s)) >= |s|
    ensures forall k: nat :: k < Length(s) ==> Offset(s, k) < |s|
  {
    RemainingAfter(s, Length(s));
    forall k: nat | k < Length(s) ensures Offset(s, k) < |s| {
      RemainingAfter(s, k);
    }
  }

  /** Once the end is passed, further steps stay where they are. */
  lemma {:induction false} OffsetStable(s: seq<Byte>, k: nat)
    requires k >= Length(s)
    ensures Offset(s, k) == Offset(s, Length(s))
  {
    if k > Length(s) {
      OffsetStable(s, k - 1);
      LengthIsLeastSteps(s);
    }
  }

  /** Offsets grow with the number of steps. */
  lemma {:induction false} OffsetMonotone(s: seq<Byte>, a: nat, b: nat)
    requires a <= b
    ensures Offset(s, a) <= Offset(s, b)
    decreases b
  {
    if a < b {
      OffsetMonotone(s, a, b - 1);
    }
  }

  /** A step taken from the offset of step i, before the end, is step i + 1,
      and there are more than i codepoints. */
  lemma OffsetNext(s: seq<Byte>, i: nat, p: nat, d: Decoded)
    requires p == Offset(s, i) && p < |s| && Decode(s, p) == d
    ensures i < Length(s) && Offset(s, i + 1) == d.next
  {
    if i >= Length(s) {
      OffsetStable(s, i);
      LengthIsLeastSteps(s);
    }
  }

  /** The first step count whose offset reaches the end is the length. */
  lemma OffsetAtEnd(s: seq<Byte>, i: nat)
    requires i <= Length(s) && Offset(s, i) >= |s|
    ensures i == Length(s)
  {
    LengthIsLeastSteps(s);
  }

  // ---------------------------------------------------------------------
  // Buffers that are concatenations of encodings

  /** The concatenation of the encodings of cps, in order. */
  function EncodeAll(cps: seq<nat>): (r: seq<Byte>)
    ensures |cps| <= |r| <= 4 * |cps|
  {
    if cps == [] then [] else Encode(cps[0]) + EncodeAll(cps[1..])
  }

  /** Every value is at most 0x10FFFF. */
  predicate AllAtMostMax(cps: seq<nat>) {
    forall i :: 0 <= i < |cps| ==> cps[i] <= MaxCodepoint
  }

  /** The byte offset at which the encoding of cps[j] starts in EncodeAll(cps). */
  function Boundary(cps: seq<nat>, j: nat): nat
    requires j <= |cps|
  {
    |EncodeAll(cps[..j])|
  }

  lemma BoundaryZero(cps: seq<nat>)
    ensures Boundary(cps, 0) == 0
  {
    assert cps[..0] == [];
  }

  lemma {:induction false} EncodeAllAppend(a: seq<nat>, b: seq<nat>)
    ensures EncodeAll(a + b) == EncodeAll(a) + EncodeAll(b)
  {
    if a == [] {
      assert a + b == b;
    } else {
      assert (a + b)[1..] == a[1..] + b;
      EncodeAllAppend(a[1..], b);
    }
  }

  /** The encoding of cps[i..j] is the slice of EncodeAll(cps) between the
      boundaries of i and j. */
  lemma EncodedSlice(cps: seq<nat>, i: nat, j: nat)
    requires i <= j <= |cps|
    ensures Boundary(cps, i) <= Boundary(cps, j) <= |EncodeAll(cps)|
    ensures EncodeAll(cps)[Boundary(cps, i)..Boundary(cps, j)] == EncodeAll(cps[i..j])
  {
    assert cps[..j] == cps[..i] + cps[i..j];
    assert cps == cps[..j] + cps[j..];
    EncodeAllAppend(cps[..i], cps[i..j]);
    EncodeAllAppend(cps[..j], cps[j..]);
  }

  /** Wherever EncodeAll(cps) stands at the start of a buffer, decoding at the
      boundary of cps[j] yields cps[j] and moves to the next boundary. */
  lemma DecodeAtBoundary(cps: seq<nat>, s: seq<Byte>, j: nat)
    requires AllAtMostMax(cps) && EncodeAll(cps) <= s && j < |cps|
    ensures Boundary(cps, j) < Boundary(cps, j + 1) <= |EncodeAll(cps)|
    ensures Decode(s, Boundary(cps, j)) == Decoded(cps[j], Boundary(cps, j + 1))
  {
    var b, e := Boundary(cps, j), Boundary(cps, j + 1);
    EncodedAt(cps, j);
    PrefixSlice(EncodeAll(cps), s, b, e);
    DecodeEncoded(s, b, cps[j]);
  }

  /** The bytes between the boundaries of cps[j] and cps[j + 1] are the
      encoding of cps[j]. */
  lemma EncodedAt(cps: seq<nat>, j: nat)
    requires j < |cps|
    ensures Boundary(cps, j) + Size(cps[j]) == Boundary(cps, j + 1) <= |EncodeAll(cps)|
    ensures EncodeAll(cps)[Boundary(cps, j)..Boundary(cps, j + 1)] == Encode(cps[j])
  {
    EncodedSlice(cps, j, j + 1);
    assert cps[j..j + 1] == [cps[j]];
    EncodeAllSingle(cps[j]);
  }

  lemma EncodeAllSingle(c: nat)
    ensures EncodeAll([c]) == Encode(c)
  {
    assert EncodeAll([c]) == Encode(c) + EncodeAll([]);
  }

  lemma PrefixSlice(a: seq<Byte>, s: seq<Byte>, i: nat, j: nat)
    requires a <= s && i <= j <= |a|
    ensures s[i..j] == a[i..j]
  {
  }

  lemma {:induction false} CodepointsFromBoundary(cps: seq<nat>, j: nat)
    requires AllAtMostMax(cps) && j <= |cps|
    ensures Boundary(cps, j) <= |EncodeAll(cps)|
    ensures Codepoints(EncodeAll(cps), Boundary(cps, j)) == cps[j..]
    decreases |cps| - j
  {
    EncodedSlice(cps, j, |cps|);
    assert cps[..|cps|] == cps;
    if j < |cps| {
      var s := EncodeAll(cps);
      DecodeAtBoundary(cps, s, j);
      CodepointsFromBoundary(cps, j + 1);
      CodepointsStep(s, Boundary(cps, j), Decoded(cps[j], Boundary(cps, j + 1)), cps[j + 1..]);
      assert cps[j..] == [cps[j]] + cps[j + 1..];
    }
  }

  /** Decoding a concatenation of encodings of values up to 0x10FFFF gives those
      values back, in order. */
  lemma CodepointsOfEncoded(cps: seq<nat>)
    requires AllAtMostMax(cps)
    ensures Codepoints(EncodeAll(cps), 0) == cps
  {
    CodepointsFromBoundary(cps, 0);
    assert cps[..0] == [];
  }

  /** `utf8_len` of a concatenation of n encodings of values up to 0x10FFFF is n. */
  lemma LengthOfEncoded(cps: seq<nat>)
    requires AllAtMostMax(cps)
    ensures Length(EncodeAll(cps)) == |cps|
  {
    CodepointsOfEncoded(cps);
  }

  /** On such a buffer, k decoding steps land on the boundary of cps[k]. */
  lemma {:induction false} OffsetOfEncoded(cps: seq<nat>, k: nat)
    requires AllAtMostMax(cps) && k <= |cps|
    ensures Offset(EncodeAll(cps), k) == Boundary(cps, k)
  {
    if k == 0 {
      assert cps[..0] == [];
    } else {
      var s, j := EncodeAll(cps), k - 1;
      OffsetOfEncoded(cps, j);
      DecodeAtBoundary(cps, s, j);
      OffsetStep(s, j, Boundary(cps, j), Decoded(cps[j], Boundary(cps, j + 1)));
    }
  }

  /** One more decoding step from an offset inside the buffer. */
  lemma OffsetStep(s: seq<Byte>, j: nat, q: nat, d: Decoded)
    requires Offset(s, j) == q < |s| && Decode(s, q) == d
    ensures Offset(s, j + 1) == d.next
  {
  }

  // ---------------------------------------------------------------------
  // Well-formed buffers

  /** Every decoding step from pos consumes exactly the encoding of a value
      up to 0x10FFFF, and the steps end at |s|. */
  predicate WellFormed(s: seq<Byte>, pos: nat)
    requires pos <= |s| + 1
    decreases |s| + 1 - pos
  {
    if pos >= |s| then pos == |s|
    else
      var d := Decode(s, pos);
      d.cp <= MaxCodepoint && d.next <= |s| && s[pos..d.next] == Encode(d.cp) &&
      WellFormed(s, d.next)
  }

  lemma WellFormedStep(s: seq<Byte>, pos: nat, d: Decoded, rest: seq<nat>)
    requires pos < |s| && WellFormed(s, pos) && Decode(s, pos) == d
    requires Codepoints(s, d.next) == rest
    ensures d.cp <= MaxCodepoint && pos < d.next <= |s| && WellFormed(s, d.next)
    ensures s[pos..d.next] == Encode(d.cp)
    ensures Codepoints(s, pos) == [d.cp] + rest
  {
  }

  /** A well-formed buffer is the concatenation of the encodings of its
      codepoints, all of them at most 0x10FFFF. */
  lemma {:induction false} WellFormedIsEncoded(s: seq<Byte>, pos: nat)
    requires pos <= |s| + 1 && WellFormed(s, pos)
    ensures AllAtMostMax(Codepoints(s, pos))
    ensures s[pos..] == EncodeAll(Codepoints(s, pos))
    decreases |s| + 1 - pos
  {
    if pos < |s| {
      var d := Decode(s, pos);
      var rest := Codepoints(s, d.next);
      WellFormedStep(s, pos, d, rest);
      WellFormedIsEncoded(s, d.next);
      EncodedCons(s, pos, d.next, d.cp, rest);
    } else {
      assert s[pos..] == [];
    }
  }

  lemma EncodedCons(s: seq<Byte>, pos: nat, next: nat, c: nat, rest: seq<nat>)
    requires pos <= next <= |s| && c <= MaxCodepoint && AllAtMostMax(rest)
    requires s[pos..next] == Encode(c) && s[next..] == EncodeAll(rest)
    ensures AllAtMostMax([c] + rest) && s[pos..] == EncodeAll([c] + rest)
  {
    assert s[pos..] == s[pos..next] + s[next..];
    assert ([c] + rest)[1..] == rest;
    assert forall i :: 0 < i < |[c] + rest| ==> ([c] + rest)[i] == rest[i - 1];
  }

  lemma {:induction false} EncodedFromBoundary(cps: seq<nat>, j: nat)
    requires AllAtMostMax(cps) && j <= |cps|
    ensures Boundary(cps, j) <= |EncodeAll(cps)|
    ensures WellFormed(EncodeAll(cps), Boundary(cps, j))
    decreases |cps| - j
  {
    var s := EncodeAll(cps);
    EncodedSlice(cps, j, |cps|);
    assert cps[..|cps|] == cps;
    if j < |cps| {
      DecodeAtBoundary(cps, s, j);
      EncodedAt(cps, j);
      EncodedFromBoundary(cps, j + 1);
      WellFormedCons(s, Boundary(cps, j), Decoded(cps[j], Boundary(cps, j + 1)));
    }
  }

  lemma WellFormedCons(s: seq<Byte>, pos: nat, d: Decoded)
    requires pos < |s| && Decode(s, pos) == d && d.cp <= MaxCodepoint && d.next <= |s|
    requires s[pos..d.next] == Encode(d.cp) && WellFormed(s, d.next)
    ensures WellFormed(s, pos)
  {
  }

  /** The concatenation of the encodings of values up to 0x10FFFF is well-formed:
      with WellFormedIsEncoded, the well-formed buffers are exactly these. */
  lemma EncodedIsWellFormed(cps: seq<nat>)
    requires AllAtMostMax(cps)
    ensures WellFormed(EncodeAll(cps), 0)
  {
    EncodedFromBoundary(cps, 0);
    BoundaryZero(cps);
  }
}
