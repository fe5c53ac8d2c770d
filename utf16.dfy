/** `utf16_encode` of src/api/utf8.c: one codepoint as UTF-16 code units,
    following section 2.1 of RFC 2781. Units are plain integers (the width
    of `wchar_t` is a platform matter). */
module Utf16 {
  import opened Codec

  /** The units written for cp: the value itself below 0x10000, otherwise a
      surrogate pair built from cp - 0x10000. The value is not range-checked:
      the masks `& 0x03FF` keep ten bits in each half, so values above
      0x10FFFF lose their high bits. */
  function Utf16Encode(cp: nat): (r: seq<nat>)
    ensures cp < 0x10000 ==> r == [cp]
    ensures cp >= 0x10000 ==>
      |r| == 2 && 0xD800 <= r[0] <= 0xDBFF && 0xDC00 <= r[1] <= 0xDFFF
  {
    if cp < 0x10000 then [cp]
    else
      var v := cp - 0x10000;
      [0xD800 + v / 1024 % 1024, 0xDC00 + v % 1024]
  }

  /** `utf16_encode(out + at, cp)` writing into a buffer of wide characters
      and returning the advanced cursor. */
  method Utf16Into(out: array<nat>, at: nat, cp: nat) returns (next: nat)
    requires at + |Utf16Encode(cp)| <= out.Length
    modifies out
    ensures next == at + |Utf16Encode(cp)|
    ensures out[..at] == old(out[..at])
    ensures out[at..next] == Utf16Encode(cp)
    ensures out[next..] == old(out[next..])
  {
    if cp < 0x10000 {
      out[at] := cp;
      next := at + 1;
    } else {
      var v := cp - 0x10000;
      out[at] := 0xD800 + v / 1024 % 1024;
      out[at + 1] := 0xDC00 + v % 1024;
      next := at + 2;
    }
  }

  /** The value a high and a low surrogate stand for (section 2.2 of RFC 2781). */
  function SurrogateValue(hi: nat, lo: nat): nat
    requires 0xD800 <= hi <= 0xDBFF && 0xDC00 <= lo <= 0xDFFF
  {
    (hi - 0xD800) * 1024 + (lo - 0xDC00) + 0x10000
  }

  /** A value from 0x10000 to 0x10FFFF is recovered from its pair. */
  lemma SurrogatePairRoundTrip(cp: nat)
    requires 0x10000 <= cp <= MaxCodepoint
    ensures var r := Utf16Encode(cp); SurrogateValue(r[0], r[1]) == cp
  {
    var v := cp - 0x10000;
    var q, r := v / 1024, v % 1024;
    assert v == q * 1024 + r;
    assert q < 1024;
    assert q % 1024 == q;
    assert Utf16Encode(cp) == [0xD800 + q, 0xDC00 + r];
  }

  /** Without a range check, a value above 0x10FFFF is written as the pair of
      the value 0x100000 below it: the pair of 0x110000 is that of 0x10000. */
  lemma PairWrapsAboveMax(cp: nat)
    requires cp >= 0x10000
    ensures Utf16Encode(cp + 0x100000) == Utf16Encode(cp)
  {
    var v := cp - 0x10000;
    var q, r := v / 1024, v % 1024;
    Split1024(v + 0x100000, q + 1024, r);
    Split1024(q + 1024, q / 1024 + 1, q % 1024);
  }

  /** Quotient and remainder by 1024 are the only such pair. */
  lemma Split1024(x: nat, q: nat, r: nat)
    requires x == q * 1024 + r && r < 1024
    ensures x / 1024 == q && x % 1024 == r
  {
  }
}
