/** The UTF-8 codec of src/api/utf8.c: the one-codepoint decoder `utf8_decode`,
    the encoder `utf8_encode` and the size query `utf8_size`.

    A buffer is a sequence of bytes. The C strings it stands for are
    NUL-terminated, so the model reads a virtual 0 at index |s| (see ByteAt).
    The C code works on `unsigned` values with shifts and masks; the model
    writes them as arithmetic on naturals: `x & (2^k - 1)` is `x % 2^k`,
    `x >> k` is `x / 2^k`, and `X | y` is `X + y` wherever the bits of X and y
    do not overlap (which is the case at every use in the source). */
module Codec {

  /** An `unsigned char`. */
  type Byte = b: int | 0 <= b < 256

  /** U+FFFD, the value every malformed input is replaced by. */
  const Replacement: nat := 0xFFFD

  /** The largest Unicode code point. The surrogates lie below it, and the
      model admits them wherever this bound is used. */
  const MaxCodepoint: nat := 0x10FFFF

  /** The byte at offset i of a NUL-terminated buffer: index |s| holds the terminator. */
  function ByteAt(s: seq<Byte>, i: nat): Byte
    requires i <= |s|
  {
    if i < |s| then s[i] else 0
  }

  /** `(c & 0xC0) == 0x80`: the byte has the shape 10xxxxxx, that is, lies
      in 0x80-0xBF (see ContinuationMask). */
  predicate IsContinuation(c: Byte) {
    0x80 <= c < 0xC0
  }

  /** The state the leading byte sets up before the continuation loop
      (utf8.c lines 14-18): the bits taken from it, the number of
      continuation bytes still to read, and the smallest value accepted
      for a sequence of that length. */
  datatype Lead = Lead(bits: nat, extra: nat, min: nat)

  /** The mask test of line 21 is the range test of IsContinuation, and
      `c & 0x3F` is then c - 0x80; stated for every 8-bit value x, whose
      byte value is `x as int`. */
  lemma ContinuationMask(x: bv8)
    ensures IsContinuation(x as int) <==> x & 0xC0 == 0x80
    ensures IsContinuation(x as int) ==> (x & 0x3F) as int == x as int - 0x80
  {
  }

  /** Classification of a leading byte (lines 14-18): bytes below 0xC0
      start no multi-byte sequence; every other one expects 1 to 3
      continuation bytes, sets the minimum of a sequence of that length, and
      keeps only as many bits as fit, with those bytes, below the capacity
      of that length. Within each range, masking with 0x07, 0x0F or 0x1F
      keeps the byte's offset from the range's base (see ClassifyMasks). Note that 0xF8-0xFF are not rejected: they take
      the 4-byte path with `c & 0x07`, their offset from 0xF8, as their bits. */
  function Classify(c: Byte): (r: Lead)
    ensures c < 0xC0 ==> r.extra == 0 && r.min == 0
    ensures c < 0x80 ==> r.bits == c
    ensures 0x80 <= c < 0xC0 ==> r.bits == Replacement
    ensures 0xC0 <= c ==> 1 <= r.extra <= 3 && r.min == Minimum(r.extra + 1)
    ensures 0xC0 <= c ==>
      r.bits * (if r.extra == 1 then 64 else if r.extra == 2 then 4096 else 262144) < Capacity(r.extra + 1)
  {
    if c >= 0xF8 then Lead(c - 0xF8, 3, 0x10000)
    else if c >= 0xF0 then Lead(c - 0xF0, 3, 0x10000)
    else if c >= 0xE0 then Lead(c - 0xE0, 2, 0x800)
    else if c >= 0xC0 then Lead(c - 0xC0, 1, 0x80)
    else if c >= 0x80 then Lead(Replacement, 0, 0)
    else Lead(c, 0, 0)
  }

  /** The bits of lines 14-16 are the masks `c & 0x07`, `c & 0x0F` and
      `c & 0x1F` of the leading byte, for every 8-bit value x. */
  lemma ClassifyMasks(x: bv8)
    ensures x as int >= 0xF0 ==> Classify(x as int).bits == (x & 0x07) as int
    ensures 0xE0 <= x as int < 0xF0 ==> Classify(x as int).bits == (x & 0x0F) as int
    ensures 0xC0 <= x as int < 0xE0 ==> Classify(x as int).bits == (x & 0x1F) as int
  {
  }

  /** The outcome of decoding one codepoint: its value and the offset just past
      the bytes consumed (the address `utf8_decode` returns). */
  datatype Decoded = Decoded(cp: nat, next: nat)

  /** The `while (extra--)` loop of `utf8_decode`, with `i` the read cursor:
      each continuation byte adds its low 6 bits (`c & 0x3F`, which for a
      byte in 0x80-0xBF is c - 0x80); the first byte that is not one
      (the NUL terminator included) is consumed and gives U+FFFD. */
  function Accumulate(s: seq<Byte>, i: nat, extra: nat, cp: nat): (r: Decoded)
    requires i <= |s| + 1 && (extra > 0 ==> i <= |s|)
    ensures i <= r.next <= i + extra && r.next <= |s| + 1
    ensures extra > 0 ==> i < r.next
    ensures extra > 0 && r.next == |s| + 1 ==> r.cp == Replacement
    decreases extra
  {
    if extra == 0 then Decoded(cp, i)
    else
      var c := ByteAt(s, i);
      if !IsContinuation(c) then Decoded(Replacement, i + 1)
      else Accumulate(s, i + 1, extra - 1, cp * 64 + (c - 0x80))
  }

  /** `utf8_decode(s + pos, &cp)`: one codepoint read at offset pos. There is
      no upper-bound check on the value (only the per-length minimum of
      line 24), so values above 0x10FFFF and surrogates come out as they are.
      Because the terminator is never a continuation byte, no byte past index
      |s| is read; the returned offset is |s| + 1 only when the terminator
      itself was consumed. */
  function Decode(s: seq<Byte>, pos: nat): (r: Decoded)
    requires pos <= |s|
    ensures pos + 1 <= r.next <= pos + 4 && r.next <= |s| + 1
    ensures ByteAt(s, pos) < 0x80 ==> r == Decoded(ByteAt(s, pos), pos + 1)
    ensures 0x80 <= ByteAt(s, pos) < 0xC0 ==> r == Decoded(Replacement, pos + 1)
    ensures r.next == |s| + 1 ==> pos == |s| || r.cp == Replacement
  {
    var lead := Classify(ByteAt(s, pos));
    var r := Accumulate(s, pos + 1, lead.extra, lead.bits);
    if r.cp < lead.min then Decoded(Replacement, r.next) else r
  }

  /** `utf8_decode` with its loop, proved to compute Decode. */
  method DecodeAt(s: seq<Byte>, pos: nat) returns (cp: nat, next: nat)
    requires pos <= |s|
    ensures Decoded(cp, next) == Decode(s, pos)
  {
    var c := ByteAt(s, pos);
    var extra: nat, min: nat;
    cp, extra, min := ReadLead(c);
    cp, next := ReadContinuations(s, pos + 1, extra, cp);
    if cp < min { cp := Replacement; }
  }

  /** Lines 14-18: the leading byte's bits, the number of continuation
      bytes to read and the per-length minimum. */
  method ReadLead(c: Byte) returns (bits: nat, extra: nat, min: nat)
    ensures Lead(bits, extra, min) == Classify(c)
  {
    extra, min := 0, 0;
    if c >= 0xF0 { bits, extra, min := c % 8, 3, 0x10000; }
    else if c >= 0xE0 { bits, extra, min := c % 16, 2, 0x800; }
    else if c >= 0xC0 { bits, extra, min := c % 32, 1, 0x80; }
    else if c >= 0x80 { bits := Replacement; }
    else { bits := c; }
  }

  /** The `while (extra--)` loop of lines 19-23, from read cursor i0. */
  method ReadContinuations(s: seq<Byte>, i0: nat, extra0: nat, bits: nat)
    returns (cp: nat, i: nat)
    requires i0 <= |s| + 1 && (extra0 > 0 ==> i0 <= |s|)
    ensures Decoded(cp, i) == Accumulate(s, i0, extra0, bits)
  {
    ghost var goal := Accumulate(s, i0, extra0, bits);
    var extra: nat := extra0;
    cp, i := bits, i0;
    while extra > 0
      invariant i <= |s| + 1 && (extra > 0 ==> i <= |s|)
      invariant Accumulate(s, i, extra, cp) == goal
      decreases extra
    {
      extra := extra - 1;
      var c := ByteAt(s, i);
      i := i + 1;
      if !IsContinuation(c) {
        cp := Replacement;
        break;
      }
      assert c % 64 == c - 0x80;
      cp := cp * 64 + c % 64;
    }
  }

  /** `utf8_size`: the number of bytes `utf8_encode` writes for cp. */
  function Size(cp: nat): (n: nat)
    ensures 1 <= n <= 4
    ensures cp > MaxCodepoint ==> n == 3
  {
    var c := if cp > MaxCodepoint then Replacement else cp;
    if c < 0x80 then 1
    else if c < 0x800 then 2
    else if c < 0x10000 then 3
    else 4
  }

  /** `utf8_encode`: the bytes written for cp, following the length boundaries
      of section 3 of RFC 3629; anything above 0x10FFFF is written as U+FFFD.
      Each byte is `X | ((cp >> Y) & Z)` of the CU_EMIT macro. */
  function Encode(cp: nat): (r: seq<Byte>)
    ensures |r| == Size(cp)
    ensures cp > MaxCodepoint ==> r == [0xEF, 0xBF, 0xBD]
  {
    var c := if cp > MaxCodepoint then Replacement else cp;
    if c < 0x80 then [c % 128]
    else if c < 0x800 then [0xC0 + c / 64 % 32, 0x80 + c % 64]
    else if c < 0x10000 then
      [0xE0 + c / 4096 % 16, 0x80 + c / 64 % 64, 0x80 + c % 64]
    else
      [0xF0 + c / 262144 % 8, 0x80 + c / 4096 % 64, 0x80 + c / 64 % 64, 0x80 + c % 64]
  }

  /** `utf8_encode(out + at, cp)` writing into a buffer and returning the
      advanced cursor. */
  method EncodeInto(out: array<Byte>, at: nat, cp: nat) returns (next: nat)
    requires at + Size(cp) <= out.Length
    modifies out
    ensures next == at + Size(cp)
    ensures out[..at] == old(out[..at])
    ensures out[at..next] == Encode(cp)
    ensures out[next..] == old(out[next..])
  {
    var c := if cp > MaxCodepoint then Replacement else cp;
    if c < 0x80 {
      out[at] := c % 128;
      next := at + 1;
    } else if c < 0x800 {
      out[at] := 0xC0 + c / 64 % 32;
      out[at + 1] := 0x80 + c % 64;
      next := at + 2;
    } else if c < 0x10000 {
      out[at] := 0xE0 + c / 4096 % 16;
      out[at + 1] := 0x80 + c / 64 % 64;
      out[at + 2] := 0x80 + c % 64;
      next := at + 3;
    } else {
      out[at] := 0xF0 + c / 262144 % 8;
      out[at + 1] := 0x80 + c / 4096 % 64;
      out[at + 2] := 0x80 + c / 64 % 64;
      out[at + 3] := 0x80 + c % 64;
      next := at + 4;
    }
  }

  // ---------------------------------------------------------------------
  // n-byte forms and the decoder's response to them

  /** One more than the largest value an n-byte sequence with a leading byte
      in 0x00-0x7F, 0xC0-0xDF, 0xE0-0xEF or 0xF0-0xF7 can carry. */
  function Capacity(n: nat): nat {
    if n == 1 then 0x80 else if n == 2 then 0x800 else if n == 3 then 0x10000 else 0x200000
  }

  /** The smallest value the decoder accepts from an n-byte sequence (the
      `min` of lines 14-16): the first value too large for n - 1 bytes. */
  function Minimum(n: nat): (r: nat)
    ensures 2 <= n <= 4 ==> r == Capacity(n - 1)
    ensures n == 1 ==> r == 0
  {
    if n == 1 then 0 else if n == 2 then 0x80 else if n == 3 then 0x800 else 0x10000
  }

  /** The n-byte UTF-8 layout of value c, whether or not n is the shortest
      length for c (n > Size(c) is an overlong form). */
  function Form(c: nat, n: nat): (r: seq<Byte>)
    requires 1 <= n <= 4 && c < Capacity(n)
    ensures |r| == n
  {
    if n == 1 then [c]
    else if n == 2 then [0xC0 + c / 64, 0x80 + c % 64]
    else if n == 3 then [0xE0 + c / 4096, 0x80 + c / 64 % 64, 0x80 + c % 64]
    else [0xF0 + c / 262144, 0x80 + c / 4096 % 64, 0x80 + c / 64 % 64, 0x80 + c % 64]
  }

  /** Shifting by 12 and 18 is shifting by 6 two and three times. */
  lemma ShiftCompose(c: nat)
    ensures c / 4096 == c / 64 / 64
    ensures c / 262144 == c / 4096 / 64
  {
    var q1, r0 := c / 64, c % 64;
    var q2, r1 := q1 / 64, q1 % 64;
    assert c == 4096 * q2 + (64 * r1 + r0);
    var q3, r2 := q2 / 64, q2 % 64;
    assert c == 262144 * q3 + (4096 * r2 + 64 * r1 + r0);
  }

  /** Appending six bits and reading them back. */
  lemma Append6(a: nat, b: nat)
    requires b < 64
    ensures (a * 64 + b) / 64 == a && (a * 64 + b) % 64 == b
  {
  }

  /** Decoding the n-byte form of c consumes n bytes and yields c, unless c is
      below the minimum for n (an overlong form), which yields U+FFFD. No
      upper bound is checked: every value below 0x200000 survives a 4-byte
      form. */
  lemma DecodeForm(s: seq<Byte>, pos: nat, c: nat, n: nat)
    requires 1 <= n <= 4 && c < Capacity(n)
    requires pos + n <= |s| && s[pos..pos + n] == Form(c, n)
    ensures Decode(s, pos) == Decoded(if c < Minimum(n) then Replacement else c, pos + n)
  {
    var f := Form(c, n);
    assert s[pos] == f[0];
    if n == 2 {
      assert s[pos + 1] == f[1];
      DecodeForm2(s, pos, c);
    } else if n == 3 {
      assert s[pos + 1] == f[1] && s[pos + 2] == f[2];
      DecodeForm3(s, pos, c);
    } else if n == 4 {
      assert s[pos + 1] == f[1] && s[pos + 2] == f[2] && s[pos + 3] == f[3];
      DecodeForm4(s, pos, c);
    }
  }

  lemma DecodeForm2(s: seq<Byte>, pos: nat, c: nat)
    requires c < 0x800 && pos + 2 <= |s|
    requires s[pos] == 0xC0 + c / 64 && s[pos + 1] == 0x80 + c % 64
    ensures Decode(s, pos) == Decoded(if c < 0x80 then Replacement else c, pos + 2)
  {
    assert Classify(s[pos]) == Lead(c / 64, 1, 0x80);
    assert IsContinuation(s[pos + 1]) && s[pos + 1] - 0x80 == c % 64;
    assert Accumulate(s, pos + 2, 0, c) == Decoded(c, pos + 2);
  }

  lemma DecodeForm3(s: seq<Byte>, pos: nat, c: nat)
    requires c < 0x10000 && pos + 3 <= |s|
    requires s[pos] == 0xE0 + c / 4096 && s[pos + 1] == 0x80 + c / 64 % 64
    requires s[pos + 2] == 0x80 + c % 64
    ensures Decode(s, pos) == Decoded(if c < 0x800 then Replacement else c, pos + 3)
  {
    ShiftCompose(c);
    assert Classify(s[pos]) == Lead(c / 4096, 2, 0x800);
    assert IsContinuation(s[pos + 1]) && s[pos + 1] - 0x80 == c / 64 % 64;
    assert IsContinuation(s[pos + 2]) && s[pos + 2] - 0x80 == c % 64;
    assert c / 4096 * 64 + c / 64 % 64 == c / 64;
    assert c / 64 * 64 + c % 64 == c;
    assert Accumulate(s, pos + 3, 0, c) == Decoded(c, pos + 3);
    assert Accumulate(s, pos + 2, 1, c / 64) == Decoded(c, pos + 3);
  }

  lemma DecodeForm4(s: seq<Byte>, pos: nat, c: nat)
    requires c < 0x200000 && pos + 4 <= |s|
    requires s[pos] == 0xF0 + c / 262144 && s[pos + 1] == 0x80 + c / 4096 % 64
    requires s[pos + 2] == 0x80 + c / 64 % 64 && s[pos + 3] == 0x80 + c % 64
    ensures Decode(s, pos) == Decoded(if c < 0x10000 then Replacement else c, pos + 4)
  {
    ShiftCompose(c);
    assert Classify(s[pos]) == Lead(c / 262144, 3, 0x10000);
    assert IsContinuation(s[pos + 1]) && s[pos + 1] - 0x80 == c / 4096 % 64;
    assert IsContinuation(s[pos + 2]) && s[pos + 2] - 0x80 == c / 64 % 64;
    assert IsContinuation(s[pos + 3]) && s[pos + 3] - 0x80 == c % 64;
    assert c / 262144 * 64 + c / 4096 % 64 == c / 4096;
    assert c / 4096 * 64 + c / 64 % 64 == c / 64;
    assert c / 64 * 64 + c % 64 == c;
    assert Accumulate(s, pos + 4, 0, c) == Decoded(c, pos + 4);
    assert Accumulate(s, pos + 3, 1, c / 64) == Decoded(c, pos + 4);
    assert Accumulate(s, pos + 2, 2, c / 4096) == Decoded(c, pos + 4);
  }

  /** An overlong form (a value short enough for fewer bytes) is replaced by
      U+FFFD, and still consumes its full nominal length. */
  lemma OverlongRejected(s: seq<Byte>, pos: nat, c: nat, n: nat)
    requires 2 <= n <= 4 && c < Minimum(n)
    requires pos + n <= |s| && s[pos..pos + n] == Form(c, n)
    ensures Decode(s, pos) == Decoded(Replacement, pos + n)
  {
    DecodeForm(s, pos, c, n);
  }

  /** For a value up to 0x10FFFF, the encoder writes the shortest form. */
  lemma EncodeIsForm(c: nat)
    requires c <= MaxCodepoint
    ensures Size(c) <= 4 && c < Capacity(Size(c)) && Minimum(Size(c)) <= c
    ensures Encode(c) == Form(c, Size(c))
  {
    if c < 0x80 {
    } else if c < 0x800 {
      assert c / 64 < 32;
    } else if c < 0x10000 {
      assert c / 4096 < 16;
    } else {
      assert c / 262144 < 8;
    }
  }

  /** Round trip of section 3 of RFC 3629, at any offset of a buffer: where
      the encoding of a value up to 0x10FFFF stands, the decoder reads that
      value back and consumes exactly Size(c) bytes. Surrogate values are
      included, since neither side rejects them. */
  lemma DecodeEncoded(s: seq<Byte>, pos: nat, c: nat)
    requires c <= MaxCodepoint
    requires pos + Size(c) <= |s| && s[pos..pos + Size(c)] == Encode(c)
    ensures Decode(s, pos) == Decoded(c, pos + Size(c))
  {
    EncodeIsForm(c);
    DecodeForm(s, pos, c, Size(c));
  }

  /** `utf8_decode(utf8_encode(cp))`: cp itself for every value up to
      0x10FFFF, and U+FFFD in 3 bytes above it. */
  lemma RoundTrip(cp: nat)
    ensures cp <= MaxCodepoint ==> Decode(Encode(cp), 0) == Decoded(cp, Size(cp))
    ensures cp > MaxCodepoint ==> Decode(Encode(cp), 0) == Decoded(Replacement, 3)
  {
    var s := Encode(cp);
    assert s[0..|s|] == s;
    if cp <= MaxCodepoint {
      DecodeEncoded(s, 0, cp);
    } else {
      DecodeEncoded(s, 0, Replacement);
    }
  }

  lemma Regroup<T>(a: seq<T>, b: seq<T>, c: seq<T>)
    ensures a + (b + c) == (a + b) + c
  {
  }

  /** Only U+0000 is written with a leading 0 byte. */
  lemma LeadNonzero(cp: nat)
    ensures Encode(cp)[0] == 0 <==> cp == 0
  {
  }

  /** The decoder's classification of the encoder's first byte gives back the
      length the size query reports: `utf8_decode` and `utf8_size` agree on
      where the next codepoint starts. */
  lemma LeadMatchesSize(cp: nat)
    ensures Classify(Encode(cp)[0]).extra == Size(cp) - 1
  {
    var c := if cp > MaxCodepoint then Replacement else cp;
    ShiftCompose(c);
  }

  /** Resynchronisation after a broken sequence: when continuation slot k
      (1 <= k <= the nominal number of continuation bytes) holds a byte that
      is not 10xxxxxx, the decoder yields U+FFFD and consumes k + 1 bytes,
      the offending byte included. */
  lemma BadContinuation(s: seq<Byte>, pos: nat, k: nat)
    requires pos + k <= |s|
    requires 1 <= k <= Classify(ByteAt(s, pos)).extra
    requires forall j :: pos < j < pos + k ==> IsContinuation(s[j])
    requires !IsContinuation(ByteAt(s, pos + k))
    ensures Decode(s, pos) == Decoded(Replacement, pos + k + 1)
  {
    var lead := Classify(ByteAt(s, pos));
    AccumulateMismatch(s, pos + 1, lead.extra, lead.bits, k);
  }

  lemma {:induction false} AccumulateMismatch(s: seq<Byte>, i: nat, extra: nat, cp: nat, k: nat)
    requires 1 <= k <= extra && i + k <= |s| + 1
    requires forall j :: i <= j < i + k - 1 ==> IsContinuation(s[j])
    requires !IsContinuation(ByteAt(s, i + k - 1))
    ensures Accumulate(s, i, extra, cp) == Decoded(Replacement, i + k)
    decreases k
  {
    if k > 1 {
      var c := ByteAt(s, i);
      assert c == s[i] && IsContinuation(c);
      AccumulateMismatch(s, i + 1, extra - 1, cp * 64 + (c - 0x80), k - 1);
    }
  }

  /** The decoder accepts only shortest forms: whenever a leading byte below
      0xF8 decodes to a value other than U+FFFD that is at most 0x10FFFF, the
      bytes consumed are exactly the encoding of that value. With RoundTrip
      this makes decode and encode inverse on well-formed input. */
  lemma DecodeCanonical(s: seq<Byte>, pos: nat)
    requires pos < |s| && s[pos] < 0xF8
    ensures var d := Decode(s, pos);
      d.cp != Replacement && d.cp <= MaxCodepoint ==>
        d.next <= |s| && s[pos..d.next] == Encode(d.cp)
  {
    var d := Decode(s, pos);
    var c0 := s[pos];
    if d.cp != Replacement && d.cp <= MaxCodepoint {
      if c0 < 0x80 {
        assert s[pos..d.next] == [c0];
      } else if c0 >= 0xF0 {
        Canonical4(s, pos);
      } else if c0 >= 0xE0 {
        Canonical3(s, pos);
      } else {
        Canonical2(s, pos);
      }
    }
  }

  lemma Canonical2(s: seq<Byte>, pos: nat)
    requires pos < |s| && 0xC0 <= s[pos] < 0xE0 && Decode(s, pos).cp != Replacement
    ensures var d := Decode(s, pos); d.next == pos + 2 <= |s| && s[pos..pos + 2] == Encode(d.cp)
  {
    var c0: int := s[pos];
    var b1 := ByteAt(s, pos + 1);
    assert IsContinuation(b1);
    var v: nat := (c0 - 0xC0) * 64 + (b1 - 0x80);
    Append6(c0 - 0xC0, b1 - 0x80);
    assert Decode(s, pos) == Decoded(v, pos + 2);
    assert 0x80 <= v < 0x800;
    assert Encode(v) == [c0, b1];
  }

  lemma Canonical3(s: seq<Byte>, pos: nat)
    requires pos < |s| && 0xE0 <= s[pos] < 0xF0 && Decode(s, pos).cp != Replacement
    ensures var d := Decode(s, pos); d.next == pos + 3 <= |s| && s[pos..pos + 3] == Encode(d.cp)
  {
    var c0: int := s[pos];
    var b1 := ByteAt(s, pos + 1);
    assert IsContinuation(b1);
    var v1: nat := (c0 - 0xE0) * 64 + (b1 - 0x80);
    var b2 := ByteAt(s, pos + 2);
    assert IsContinuation(b2);
    var v: nat := v1 * 64 + (b2 - 0x80);
    Append6(c0 - 0xE0, b1 - 0x80);
    Append6(v1, b2 - 0x80);
    ShiftCompose(v);
    assert Decode(s, pos) == Decoded(v, pos + 3);
    assert 0x800 <= v < 0x10000;
    assert v / 4096 == (c0 - 0xE0);
    assert Encode(v) == [c0, b1, b2];
  }

  lemma Canonical4(s: seq<Byte>, pos: nat)
    requires pos < |s| && 0xF0 <= s[pos] < 0xF8
    requires Decode(s, pos).cp != Replacement && Decode(s, pos).cp <= MaxCodepoint
    ensures var d := Decode(s, pos); d.next == pos + 4 <= |s| && s[pos..pos + 4] == Encode(d.cp)
  {
    var c0: int := s[pos];
    var b1 := ByteAt(s, pos + 1);
    assert IsContinuation(b1);
    var v1: nat := (c0 - 0xF0) * 64 + (b1 - 0x80);
    var b2 := ByteAt(s, pos + 2);
    assert IsContinuation(b2);
    var v2: nat := v1 * 64 + (b2 - 0x80);
    var b3 := ByteAt(s, pos + 3);
    assert IsContinuation(b3);
    var v: nat := v2 * 64 + (b3 - 0x80);
    Append6(c0 - 0xF0, b1 - 0x80);
    Append6(v1, b2 - 0x80);
    Append6(v2, b3 - 0x80);
    ShiftCompose(v);
    assert Decode(s, pos) == Decoded(v, pos + 4);
    assert 0x10000 <= v <= MaxCodepoint;
    assert v / 4096 == v1 && v / 262144 == (c0 - 0xF0);
    assert Encode(v) == [c0, b1, b2, b3];
  }
}
