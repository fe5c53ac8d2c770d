/** The codepoint-indexed substring of `f_utf8_sub` (src/api/utf8.c lines
    106-126), without the Lua argument and result handling. Bounds are
    1-based codepoint indices, negative ones counting from the end; the end
    bound defaults to -1 in the binding, which callers of this model pass
    explicitly. */
module Slicing {
  import opened Codec
  import opened Scan

  /** Line 108: the 0-based index of the first codepoint to keep, given the
      length l. A negative start becomes l + start - 1, one lower than the
      convention of Lua's `string.sub`. */
  function First(l: int, start: int): int {
    (if start >= 0 then start else l + start) - 1
  }

  /** Line 109: the 0-based index of the last codepoint to keep. */
  function Last(l: int, end: int): int {
    if end >= 0 then end - 1 else l + end
  }

  /** The bytes `f_utf8_sub` returns. The length is only needed (and, in
      Utf8Sub, only computed) when a bound is negative (line 107). */
  function Substring(s: seq<Byte>, start: int, end: int): (r: seq<Byte>)
    ensures |r| <= |s| + 1
  {
    var l := if end >= 0 && start >= 0 then 0 else Length(s);
    Cut(s, First(l, start), Last(l, end))
  }

  /** The bytes kept for 0-based bounds first and last: none when first is
      past last; otherwise from the start of codepoint `first` to the end of
      codepoint `last`. When `first` is never reached by the scan (negative,
      or past the last codepoint) the slice starts at byte 0; when `last` is
      never reached it runs to where the scan stopped. A truncated final
      sequence makes the scan stop at |s| + 1, so the slice then takes in the
      string's NUL terminator: it is cut from s + [0]. */
  function Cut(s: seq<Byte>, first: int, last: int): (r: seq<Byte>)
    ensures |r| <= |s| + 1
    ensures first > last ==> r == []
  {
    if first > last then []
    else
      var n := Length(s);
      var k := if 0 <= last < n then last + 1 else n;
      var lo := if 0 <= first < n then first else 0;
      OffsetMonotone(s, lo, k);
      (s + [0])[if 0 <= first < n then Offset(s, first) else 0..Offset(s, k)]
  }

  /** `f_utf8_sub(s, start, end)`: the bounds are normalised (lines 106-110),
      crossed bounds give the empty string (lines 112-115), and otherwise the
      bytes between the two cursors of the scan are returned (line 126). */
  method Utf8Sub(s: seq<Byte>, start: int, end: int) returns (r: seq<Byte>)
    ensures r == Substring(s, start, end)
  {
    var l := 0;
    if !(end >= 0 && start >= 0) {
      l := Utf8Len(s);
    }
    var first := (if start >= 0 then start else l + start) - 1;
    var last := if end >= 0 then end - 1 else l + end;
    assert first == First(l, start) && last == Last(l, end);
    if first > last {
      return [];
    }
    var lo, p := SubScan(s, first, last);
    CutByOffsets(s, first, last);
    r := (s + [0])[lo..p];
  }

  /** The scan loop of lines 117-124 for 0-based bounds first <= last: `lo`
      is the cursor `s` of the source, recorded when codepoint `first` is
      reached, and `p` the cursor `p`, which stops after codepoint `last` or
      at the end. */
  method SubScan(s: seq<Byte>, first: int, last: int) returns (lo: nat, p: nat)
    requires first <= last
    ensures lo == if 0 <= first < Length(s) then Offset(s, first) else 0
    ensures p == Offset(s, if 0 <= last < Length(s) then last + 1 else Length(s))
  {
    ghost var n := Length(s);
    ghost var stopped := false;
    p, lo := 0, 0;
    var i: nat := 0;
    while p < |s|
      invariant i <= n && p == Offset(s, i)
      invariant last < 0 || last >= i
      invariant lo == if 0 <= first < i then Offset(s, first) else 0
      decreases |s| + 1 - p
    {
      if first == i {
        lo := p;
      }
      ghost var p0 := p;
      var cp;
      cp, p := DecodeAt(s, p);
      OffsetNext(s, i, p0, Decoded(cp, p));
      if last == i {
        stopped := true;
        break;
      }
      i := i + 1;
    }
    if !stopped {
      OffsetAtEnd(s, i);
    }
  }

  /** Cut in terms of the offsets where the scan records `s` and stops. */
  lemma {:induction false} CutByOffsets(s: seq<Byte>, first: int, last: int)
    requires first <= last
    ensures var n := Length(s);
      var lo := if 0 <= first < n then Offset(s, first) else 0;
      var hi := Offset(s, if 0 <= last < n then last + 1 else n);
      lo <= hi <= |s| + 1 && Cut(s, first, last) == (s + [0])[lo..hi]
  {
    var n := Length(s);
    OffsetMonotone(s, if 0 <= first < n then first else 0, if 0 <= last < n then last + 1 else n);
  }

  /** On a concatenation of encodings, the bytes between the offsets of
      steps i and j are the encodings of cps[i..j]. */
  lemma {:induction false} SliceOfEncoded(cps: seq<nat>, i: nat, j: nat)
    requires AllAtMostMax(cps) && i <= j <= |cps|
    ensures var s := EncodeAll(cps);
      Offset(s, i) <= Offset(s, j) <= |s| &&
      (s + [0])[Offset(s, i)..Offset(s, j)] == EncodeAll(cps[i..j])
  {
    var s := EncodeAll(cps);
    OffsetOfEncoded(cps, i);
    OffsetOfEncoded(cps, j);
    EncodedSlice(cps, i, j);
    assert (s + [0])[Offset(s, i)..Offset(s, j)] == s[Offset(s, i)..Offset(s, j)];
  }

  /** On concatenated encodings, Cut keeps the encodings of codepoints lo to
      hi - 1, where lo is `first` when the scan reaches it and 0 otherwise,
      and hi is just past `last` when the scan reaches it and the number of
      codepoints otherwise. */
  lemma {:induction false} CutOfEncoded(cps: seq<nat>, first: int, last: int, lo: nat, hi: nat)
    requires AllAtMostMax(cps) && first <= last
    requires lo == if 0 <= first < |cps| then first else 0
    requires hi == if 0 <= last < |cps| then last + 1 else |cps|
    ensures lo <= hi <= |cps| && Length(EncodeAll(cps)) == |cps|
    ensures Cut(EncodeAll(cps), first, last) == EncodeAll(cps[lo..hi])
  {
    LengthOfEncoded(cps);
    SliceOfEncoded(cps, lo, hi);
    CutByOffsets(EncodeAll(cps), first, last);
  }

  /** With positive bounds within the string, the result is the encodings of
      codepoints start to end inclusive: sub("héllo", 2, 4) is "éll". */
  lemma {:induction false} SubOfEncoded(cps: seq<nat>, start: int, end: int)
    requires AllAtMostMax(cps) && 1 <= start <= end <= |cps|
    ensures Substring(EncodeAll(cps), start, end) == EncodeAll(cps[start - 1..end])
  {
    var first, last := start - 1, end - 1;
    var t := EncodeAll(cps[first..last + 1]);
    assert cps[first..last + 1] == cps[start - 1..end];
    CutOfEncoded(cps, first, last, first, last + 1);
    PositiveIsCut(EncodeAll(cps), start, end, first, last, t);
  }

  lemma PositiveIsCut(s: seq<Byte>, start: int, end: int, first: int, last: int, t: seq<Byte>)
    requires start >= 0 && end >= 0 && first == start - 1 && last == end - 1
    requires Cut(s, first, last) == t
    ensures Substring(s, start, end) == t
  {
  }

  /** With negative bounds, the end bound is the Lua one but the start bound
      is one codepoint early: sub(s, -k, -1) keeps the last k + 1 codepoints
      (sub("héllo", -2, -1) is "llo"). */
  lemma {:induction false} SubNegative(cps: seq<nat>, start: int, end: int)
    requires AllAtMostMax(cps) && 1 <= |cps| + start && start <= end < 0
    ensures Substring(EncodeAll(cps), start, end) ==
      EncodeAll(cps[|cps| + start - 1..|cps| + end + 1])
  {
    var first, last := |cps| + start - 1, |cps| + end;
    var t := EncodeAll(cps[first..last + 1]);
    assert cps[first..last + 1] == cps[|cps| + start - 1..|cps| + end + 1];
    CutOfEncoded(cps, first, last, first, last + 1);
    NegativeIsCut(EncodeAll(cps), |cps|, start, end, first, last, t);
  }

  /** A start so negative that l + start - 1 is below 0 is never reached by
      the scan, so the slice starts at byte 0; an end with l + end below 0 is
      never reached either, and the slice runs to the end of the string:
      sub("abc", -10, -5) is "abc", not the "" of Lua's `string.sub`. */
  lemma {:induction false} SubNegativeUnreached(cps: seq<nat>, start: int, end: int)
    requires AllAtMostMax(cps) && |cps| + start < 1 && start <= end < 0
    ensures Substring(EncodeAll(cps), start, end) ==
      if |cps| + end < 0 then EncodeAll(cps) else EncodeAll(cps[..|cps| + end + 1])
  {
    var first, last := |cps| + start - 1, |cps| + end;
    var hi := if 0 <= last then last + 1 else |cps|;
    var t := EncodeAll(cps[0..hi]);
    CutOfEncoded(cps, first, last, 0, hi);
    NegativeIsCut(EncodeAll(cps), |cps|, start, end, first, last, t);
    assert cps[0..hi] == if |cps| + end < 0 then cps else cps[..|cps| + end + 1];
  }

  lemma NegativeIsCut(s: seq<Byte>, n: nat, start: int, end: int, first: int, last: int, t: seq<Byte>)
    requires n == Length(s) && start < 0 && end < 0 && first == n + start - 1 && last == n + end
    requires Cut(s, first, last) == t
    ensures Substring(s, start, end) == t
  {
  }

  /** An end past the last codepoint is never reached either, and the
      slice runs to the end of the string: sub("héllo", 2, 10) is "éllo". */
  lemma {:induction false} SubEndPastEnd(cps: seq<nat>, start: int, end: int)
    requires AllAtMostMax(cps) && 1 <= start <= |cps| < end
    ensures Substring(EncodeAll(cps), start, end) == EncodeAll(cps[start - 1..])
  {
    var first, last := start - 1, end - 1;
    var t := EncodeAll(cps[first..|cps|]);
    assert cps[first..|cps|] == cps[start - 1..];
    CutOfEncoded(cps, first, last, first, |cps|);
    PositiveIsCut(EncodeAll(cps), start, end, first, last, t);
  }

  /** A start of 0 becomes index -1, which the scan never reaches, so the
      slice starts at byte 0; with an end of 0 as well, the end index -1 is
      never reached either: sub(s, 0, 0) is the whole string, not "". */
  lemma {:induction false} SubFromZero(cps: seq<nat>, end: int)
    requires AllAtMostMax(cps) && 0 <= end
    ensures Substring(EncodeAll(cps), 0, end) ==
      if end == 0 || end > |cps| then EncodeAll(cps) else EncodeAll(cps[..end])
  {
    var first, last := -1, end - 1;
    var hi := if 0 <= last < |cps| then last + 1 else |cps|;
    var t := EncodeAll(cps[0..hi]);
    CutOfEncoded(cps, first, last, 0, hi);
    PositiveIsCut(EncodeAll(cps), 0, end, first, last, t);
    assert cps[0..hi] == if end == 0 || end > |cps| then cps else cps[..end];
  }

  /** A start past the last codepoint is never reached by the scan, so the
      slice starts at byte 0: sub("abc", 5, 10) is "abc", not "". */
  lemma {:induction false} SubStartPastEnd(cps: seq<nat>, start: int, end: int)
    requires AllAtMostMax(cps) && |cps| < start <= end
    ensures Substring(EncodeAll(cps), start, end) == EncodeAll(cps)
  {
    LengthOfEncoded(cps);
    SliceOfEncoded(cps, 0, |cps|);
    assert cps[0..|cps|] == cps;
    assert Offset(EncodeAll(cps), 0) == 0;
  }

  /** With a negative end, as the binding's default of -1, the length is
      computed and a start past the last codepoint is past the end index as
      well, so the crossed-bounds exit returns "": sub("abc", 5) is "". */
  lemma SubStartPastEndDefault(s: seq<Byte>, start: int, end: int)
    requires end < 0 && Length(s) < start
    ensures Substring(s, start, end) == []
  {
  }

  /** A first index past the last gives the empty string, whatever the
      buffer: sub(s, 3, 1) is "". */
  lemma SubCrossed(s: seq<Byte>, start: int, end: int)
    requires 0 <= end < start
    ensures Substring(s, start, end) == []
  {
  }
}
