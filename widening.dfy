/** `utf8_widen` of src/api/utf8.c: a NUL-terminated UTF-8 string converted
    to UTF-16, one decoded codepoint at a time, into a caller-supplied buffer
    of wide characters. */
module Widening {
  import opened Codec
  import opened Utf16
  import opened Scan

  /** The UTF-16 units of a sequence of codepoints, in order. */
  function Utf16All(cps: seq<nat>): (r: seq<nat>)
    ensures |cps| <= |r| <= 2 * |cps|
  {
    if cps == [] then [] else Utf16Encode(cps[0]) + Utf16All(cps[1..])
  }

  /** The units `utf8_widen` writes when started at offset pos: nothing once
      the cursor stands on a NUL byte (the terminator at |s| or an embedded
      0); otherwise the units of the codepoint decoded there, then the rest.
      A truncated final sequence moves the cursor to |s| + 1, past the
      terminator, where the source goes on reading beyond the string; the
      model stops there. */
  function Widen(s: seq<Byte>, pos: nat): seq<nat>
    requires pos <= |s| + 1
    decreases |s| + 1 - pos
  {
    if pos >= |s| || s[pos] == 0 then []
    else
      var d := Decode(s, pos);
      Utf16Encode(d.cp) + Widen(s, d.next)
  }

  /** `utf8_widen(s, out)`: writes the units into out from index 0 and
      returns the index just past the last one written. */
  method Utf8Widen(s: seq<Byte>, out: array<nat>) returns (end: nat)
    requires |Widen(s, 0)| <= out.Length
    modifies out
    ensures end == |Widen(s, 0)|
    ensures out[..end] == Widen(s, 0)
    ensures out[end..] == old(out[end..])
  {
    ghost var w := Widen(s, 0);
    var p: nat := 0;
    end := 0;
    while p < |s| && s[p] != 0
      invariant p <= |s| + 1
      invariant end + |Widen(s, p)| == |w|
      invariant out[..end] + Widen(s, p) == w
      invariant out[|w|..] == old(out[|w|..])
      decreases |s| + 1 - p
    {
      ghost var before := out[..end];
      ghost var p0 := p;
      var cp;
      cp, p := DecodeAt(s, p);
      WidenStep(s, p0, Decoded(cp, p), Widen(s, p));
      Regroup(before, Utf16Encode(cp), Widen(s, p));
      var next := Utf16Into(out, end, cp);
      assert out[..next] == before + Utf16Encode(cp);
      end := next;
    }
  }

  /** On a buffer without NUL bytes, widening converts every decoded
      codepoint, malformed ones included (as U+FFFD). */
  lemma {:induction false} WidenWithoutNul(s: seq<Byte>, pos: nat)
    requires pos <= |s| + 1
    requires forall i :: 0 <= i < |s| ==> s[i] != 0
    ensures Widen(s, pos) == Utf16All(Codepoints(s, pos))
    decreases |s| + 1 - pos
  {
    if pos < |s| {
      var d := Decode(s, pos);
      WidenWithoutNul(s, d.next);
      assert Codepoints(s, pos)[1..] == Codepoints(s, d.next);
    }
  }

  /** Without NUL bytes, the number of units lies between `utf8_len` and
      twice it: a buffer of `utf8_len` wide characters is too short whenever
      a codepoint needs a surrogate pair. */
  lemma WidenLength(s: seq<Byte>)
    requires forall i :: 0 <= i < |s| ==> s[i] != 0
    ensures Length(s) <= |Widen(s, 0)| <= 2 * Length(s)
  {
    WidenWithoutNul(s, 0);
  }

  /** One step of the widening loop, on any buffer. */
  lemma WidenStep(s: seq<Byte>, pos: nat, d: Decoded, rest: seq<nat>)
    requires pos < |s| && s[pos] != 0 && Decode(s, pos) == d
    requires Widen(s, d.next) == rest
    ensures Widen(s, pos) == Utf16Encode(d.cp) + rest
  {
  }

  /** At the boundary of cps[j] stands a nonzero byte, and decoding there
      yields cps[j]. */
  lemma LeadAtBoundary(cps: seq<nat>, s: seq<Byte>, j: nat)
    requires AllAtMostMax(cps) && EncodeAll(cps) <= s && j < |cps| && cps[j] != 0
    ensures Boundary(cps, j) < |s| && s[Boundary(cps, j)] != 0
    ensures Decode(s, Boundary(cps, j)) == Decoded(cps[j], Boundary(cps, j + 1))
  {
    var b, e := Boundary(cps, j), Boundary(cps, j + 1);
    DecodeAtBoundary(cps, s, j);
    EncodedAt(cps, j);
    PrefixSlice(EncodeAll(cps), s, b, e);
    assert s[b] == s[b..e][0];
    LeadNonzero(cps[j]);
  }

  /** On a buffer that starts with the encodings of nonzero values up to 0x10FFFF
      followed by the end or a NUL byte, widening from the boundary of cps[j]
      gives the UTF-16 form of cps[j..]. */
  lemma {:induction false} WidenFromBoundary(cps: seq<nat>, s: seq<Byte>, j: nat)
    requires AllAtMostMax(cps) && EncodeAll(cps) <= s && j <= |cps|
    requires forall i :: 0 <= i < |cps| ==> cps[i] != 0
    requires |s| == |EncodeAll(cps)| || s[|EncodeAll(cps)|] == 0
    ensures Boundary(cps, j) <= |s|
    ensures Widen(s, Boundary(cps, j)) == Utf16All(cps[j..])
    decreases |cps| - j
  {
    EncodedSlice(cps, j, |cps|);
    assert cps[..|cps|] == cps;
    if j < |cps| {
      LeadAtBoundary(cps, s, j);
      WidenFromBoundary(cps, s, j + 1);
      assert cps[j..][1..] == cps[j + 1..];
      WidenStep(s, Boundary(cps, j), Decoded(cps[j], Boundary(cps, j + 1)), Utf16All(cps[j + 1..]));
    }
  }

  /** `utf8_widen` of the UTF-8 form of nonzero values up to 0x10FFFF is
      their UTF-16 form. */
  lemma WidenOfEncoded(cps: seq<nat>)
    requires AllAtMostMax(cps)
    requires forall i :: 0 <= i < |cps| ==> cps[i] != 0
    ensures Widen(EncodeAll(cps), 0) == Utf16All(cps)
  {
    WidenFromBoundary(cps, EncodeAll(cps), 0);
    assert cps[..0] == [];
  }

  /** Every codepoint decoded before the cursor stops gives at most two
      units, and the scan stops no later than Codepoints does. */
  lemma {:induction false} WidenAtMostTwice(s: seq<Byte>, pos: nat)
    requires pos <= |s| + 1
    ensures |Widen(s, pos)| <= 2 * |Codepoints(s, pos)|
    decreases |s| + 1 - pos
  {
    if pos < |s| && s[pos] != 0 {
      var d := Decode(s, pos);
      WidenAtMostTwice(s, d.next);
      assert |Codepoints(s, pos)| == 1 + |Codepoints(s, d.next)|;
    }
  }

  // ---------------------------------------------------------------------
  // The wide buffer of `f_utf8_show`

  /** Decoding at a nonzero byte never yields U+0000: an ASCII byte is its
      own value, and every longer form is either at least its per-length
      minimum or U+FFFD. */
  lemma DecodeNonzero(s: seq<Byte>, pos: nat)
    requires pos < |s| && s[pos] != 0
    ensures Decode(s, pos).cp != 0
  {
  }

  /** No unit `utf8_widen` writes is zero. */
  lemma {:induction false} WidenNonzero(s: seq<Byte>, pos: nat)
    requires pos <= |s| + 1
    ensures forall k :: 0 <= k < |Widen(s, pos)| ==> Widen(s, pos)[k] != 0
    decreases |s| + 1 - pos
  {
    if pos < |s| && s[pos] != 0 {
      var d := Decode(s, pos);
      DecodeNonzero(s, pos);
      WidenNonzero(s, d.next);
      WidenStep(s, pos, d, Widen(s, d.next));
    }
  }

  /** What `wprintf("%s")` shows when given index i of a buffer u of wide
      characters: the units before the first zero one, or an overread when
      the buffer ends before a zero unit. */
  datatype Shown = Shown(units: seq<nat>) | Overread

  function ShownFrom(u: seq<nat>, i: nat): (r: Shown)
    ensures r.Shown? ==> i + |r.units| < |u| && u[i + |r.units|] == 0
    ensures r.Shown? ==> forall k :: 0 <= k < |r.units| ==> r.units[k] == u[i + k] != 0
    ensures r.Overread? <==> forall k :: i <= k < |u| ==> u[k] != 0
    decreases |u| - i
  {
    if i >= |u| then Overread
    else if u[i] == 0 then Shown([])
    else
      match ShownFrom(u, i + 1)
      case Overread => Overread
      case Shown(rest) => Shown([u[i]] + rest)
  }

  /** The buffer of `units` zeroed wide characters after `utf8_widen` has
      written into it (lines 135-137), when what it writes fits. */
  function ShowBuffer(s: seq<Byte>, units: nat): (u: seq<nat>)
    requires |Widen(s, 0)| <= units
    ensures |u| == units && u[..|Widen(s, 0)|] == Widen(s, 0)
    ensures forall k :: |Widen(s, 0)| <= k < units ==> u[k] == 0
  {
    Widen(s, 0) + seq(units - |Widen(s, 0)|, _ => 0)
  }

  /** The number of wide characters `f_utf8_show` allocates and zeroes before
      widening into them (lines 135-136): `utf8_len(str, len)`. */
  function ShowUnitsAsWritten(s: seq<Byte>): (n: nat)
    ensures n <= |s| && (n == 0 <==> |s| == 0)
  {
    LengthBounds(s);
    Length(s)
  }

  /** With that allocation, U+1F600 needs two units where one was allocated.
      Line 137 shows the wide string at the address `utf8_widen` returns,
      which is just past the last unit written (lines 76-78): for "a" that
      is index 1 of a one-unit buffer, so the read starts past the
      allocation. */
  lemma ShowOverrun()
    ensures |Widen([0xF0, 0x9F, 0x98, 0x80], 0)| == 2
    ensures ShowUnitsAsWritten([0xF0, 0x9F, 0x98, 0x80]) == 1
    ensures |Widen([0x61], 0)| == ShowUnitsAsWritten([0x61]) == 1
    ensures ShownFrom(ShowBuffer([0x61], 1), |Widen([0x61], 0)|) == Overread
  {
    assert Decode([0x61], 0) == Decoded(0x61, 1);
    var e := [0xF0, 0x9F, 0x98, 0x80];
    assert e == Encode(0x1F600);
    RoundTrip(0x1F600);
    assert Codepoints(e, 4) == [];
    assert Codepoints([0x61], 1) == [];
  }

  /** An allocation of two units per codepoint plus one. */
  function ShowUnits(s: seq<Byte>): (n: nat)
    ensures n == 2 * ShowUnitsAsWritten(s) + 1 && n <= 2 * |s| + 1
  {
    2 * Length(s) + 1
  }

  /** That allocation holds all the units widening writes and leaves at
      least one zero unit after them, so showing the buffer from its start
      (`wout`) gives exactly the widened string. */
  lemma ShowFits(s: seq<Byte>)
    ensures |Widen(s, 0)| < ShowUnits(s)
    ensures ShownFrom(ShowBuffer(s, ShowUnits(s)), 0) == Shown(Widen(s, 0))
  {
    WidenAtMostTwice(s, 0);
    WidenNonzero(s, 0);
    var w, u := Widen(s, 0), ShowBuffer(s, ShowUnits(s));
    assert u[..|w|] == w;
    assert forall k :: 0 <= k < |w| ==> u[k] == w[k];
    ShownUpTo(u, 0, |w|);
  }

  /** Showing from the address `utf8_widen` returns, as line 137 does, gives
      the empty string even with that allocation: both the allocation and
      the start of what is shown need correcting. */
  lemma ShowFromReturned(s: seq<Byte>)
    ensures |Widen(s, 0)| < ShowUnits(s)
    ensures ShownFrom(ShowBuffer(s, ShowUnits(s)), |Widen(s, 0)|) == Shown([])
  {
    WidenAtMostTwice(s, 0);
  }

  /** Shown from index i, a buffer shows the units up to the first zero
      unit, at index m. */
  lemma {:induction false} ShownUpTo(u: seq<nat>, i: nat, m: nat)
    requires i <= m < |u| && u[m] == 0
    requires forall k :: i <= k < m ==> u[k] != 0
    ensures ShownFrom(u, i) == Shown(u[i..m])
    decreases m - i
  {
    if i < m {
      ShownUpTo(u, i + 1, m);
      assert [u[i]] + u[i + 1..m] == u[i..m];
    }
  }
}
