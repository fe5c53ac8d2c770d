/** Worked instances of the codec and of the string operations, on concrete
    buffers: the expected results of the library's own behaviour, quirks
    included. */
module Examples {
  import opened Codec
  import opened Utf16
  import opened Scan
  import opened Slicing
  import opened Widening
  import opened Reversal

  /** "héllo": h, U+00E9 in two bytes, l, l, o. */
  lemma HelloIsEncoded()
    ensures [0x68, 0xC3, 0xA9, 0x6C, 0x6C, 0x6F] == EncodeAll([0x68, 0xE9, 0x6C, 0x6C, 0x6F])
  {
  }

  lemma HelloLength()
    ensures Length([0x68, 0xC3, 0xA9, 0x6C, 0x6C, 0x6F]) == 5
  {
    HelloIsEncoded();
    LengthOfEncoded([0x68, 0xE9, 0x6C, 0x6C, 0x6F]);
  }

  /** sub("héllo", 2, 4) is "éll". */
  lemma HelloSub()
    ensures Substring([0x68, 0xC3, 0xA9, 0x6C, 0x6C, 0x6F], 2, 4) == [0xC3, 0xA9, 0x6C, 0x6C]
  {
    var cps := [0x68, 0xE9, 0x6C, 0x6C, 0x6F];
    HelloIsEncoded();
    SubOfEncoded(cps, 2, 4);
    assert cps[1..4] == [0xE9, 0x6C, 0x6C];
    EllEncoded();
  }

  lemma EllEncoded()
    ensures EncodeAll([0xE9, 0x6C, 0x6C]) == [0xC3, 0xA9, 0x6C, 0x6C]
  {
  }

  /** sub("héllo", -2, -1) is "llo", not the "lo" of Lua's string.sub. */
  lemma HelloNegative()
    ensures Substring([0x68, 0xC3, 0xA9, 0x6C, 0x6C, 0x6F], -2, -1) == [0x6C, 0x6C, 0x6F]
  {
    var cps := [0x68, 0xE9, 0x6C, 0x6C, 0x6F];
    HelloIsEncoded();
    SubNegative(cps, -2, -1);
    assert cps[2..5] == [0x6C, 0x6C, 0x6F];
    assert EncodeAll([0x6C, 0x6C, 0x6F]) == [0x6C, 0x6C, 0x6F];
  }

  /** sub("héllo", 2, 10) is "éllo": the end is never reached. */
  lemma HelloPastEnd()
    ensures Substring([0x68, 0xC3, 0xA9, 0x6C, 0x6C, 0x6F], 2, 10) == [0xC3, 0xA9, 0x6C, 0x6C, 0x6F]
  {
    var cps := [0x68, 0xE9, 0x6C, 0x6C, 0x6F];
    HelloIsEncoded();
    assert AllAtMostMax(cps);
    SubEndPastEnd(cps, 2, 10);
    assert cps[1..] == [0xE9, 0x6C, 0x6C, 0x6F];
    ElloEncoded();
  }

  lemma ElloEncoded()
    ensures EncodeAll([0xE9, 0x6C, 0x6C, 0x6F]) == [0xC3, 0xA9, 0x6C, 0x6C, 0x6F]
  {
  }

  /** sub("abc", 0, 0) is "abc": both bounds become index -1. */
  lemma ZeroZeroIsWhole()
    ensures Substring([0x61, 0x62, 0x63], 0, 0) == [0x61, 0x62, 0x63]
  {
    assert [0x61, 0x62, 0x63] == EncodeAll([0x61, 0x62, 0x63]);
    SubFromZero([0x61, 0x62, 0x63], 0);
  }

  /** sub("abc", 5) is "": the default end -1 becomes index 2. */
  lemma StartPastDefaultEnd()
    ensures Substring([0x61, 0x62, 0x63], 5, -1) == []
  {
    SubStartPastEndDefault([0x61, 0x62, 0x63], 5, -1);
    assert [0x61, 0x62, 0x63] == EncodeAll([0x61, 0x62, 0x63]);
    LengthOfEncoded([0x61, 0x62, 0x63]);
  }

  /** sub("abc", -10, -5) is "abc": neither bound is ever reached. */
  lemma FarNegativeBounds()
    ensures Substring([0x61, 0x62, 0x63], -10, -5) == [0x61, 0x62, 0x63]
  {
    assert [0x61, 0x62, 0x63] == EncodeAll([0x61, 0x62, 0x63]);
    SubNegativeUnreached([0x61, 0x62, 0x63], -10, -5);
  }

  /** sub("abc", 5, 10) is "abc": the start is never reached. */
  lemma StartNeverReached()
    ensures Substring([0x61, 0x62, 0x63], 5, 10) == [0x61, 0x62, 0x63]
  {
    assert [0x61, 0x62, 0x63] == EncodeAll([0x61, 0x62, 0x63]);
    SubStartPastEnd([0x61, 0x62, 0x63], 5, 10);
  }

  /** sub("\xC3", 1, -1) returns two bytes: the truncated sequence and the
      string's terminator, which the decoder consumed. */
  lemma TruncatedTakesTerminator()
    ensures Substring([0xC3], 1, -1) == [0xC3, 0]
  {
    assert Decode([0xC3], 0) == Decoded(Replacement, 2);
    assert Codepoints([0xC3], 0) == [Replacement];
  }

  /** reverse("héllo") is "olléh". */
  lemma HelloReversed()
    ensures Fits([0x68, 0xC3, 0xA9, 0x6C, 0x6C, 0x6F], 0, 6)
    ensures Reversed([0x68, 0xC3, 0xA9, 0x6C, 0x6C, 0x6F]) == [0x6F, 0x6C, 0x6C, 0xC3, 0xA9, 0x68]
  {
    var cps := [0x68, 0xE9, 0x6C, 0x6C, 0x6F];
    HelloIsEncoded();
    assert AllAtMostMax(cps);
    ReversedOfEncoded(cps);
    HelloRev();
    OllehEncoded();
  }

  lemma HelloRev()
    ensures Rev([0x68, 0xE9, 0x6C, 0x6C, 0x6F]) == [0x6F, 0x6C, 0x6C, 0xE9, 0x68]
  {
  }

  lemma OllehEncoded()
    ensures EncodeAll([0x6F, 0x6C, 0x6C, 0xE9, 0x68]) == [0x6F, 0x6C, 0x6C, 0xC3, 0xA9, 0x68]
  {
  }

  /** A lone continuation byte decodes as U+FFFD, which is written in three
      bytes and so fills the whole output of "\x80AA": the two letters are
      lost. */
  lemma ReverseOfStrayContinuation()
    ensures Fits([0x80, 0x41, 0x41], 0, 3)
    ensures Reversed([0x80, 0x41, 0x41]) == [0xEF, 0xBF, 0xBD]
  {
    assert Decode([0x80, 0x41, 0x41], 0) == Decoded(Replacement, 1);
  }

  /** F4 90 80 80 decodes to 0x110000, re-encoded as U+FFFD in three bytes;
      the last output byte then comes from decoding at the terminator itself,
      which reads U+0000. */
  lemma ReverseAboveMax()
    ensures Fits([0xF4, 0x90, 0x80, 0x80], 0, 4)
    ensures Reversed([0xF4, 0x90, 0x80, 0x80]) == [0x00, 0xEF, 0xBF, 0xBD]
  {
    var s := [0xF4, 0x90, 0x80, 0x80];
    assert Decode(s, 0) == Decoded(0x110000, 4);
    assert Decode(s, 4) == Decoded(0, 5);
  }

  /** On "\xC3" the replacement needs three bytes of a one-byte output, so
      the loop would write before the buffer. */
  lemma ReverseOverrun()
    ensures !Fits([0xC3], 0, 1)
  {
    assert Decode([0xC3], 0) == Decoded(Replacement, 2);
  }

  /** Malformed input: a stray continuation byte, an overlong form, a
      sequence truncated by the terminator, and a broken sequence that
      resynchronises on the byte after the lead. */
  lemma DecodeStray()
    ensures Decode([0x80], 0) == Decoded(Replacement, 1)
  {
  }

  lemma DecodeOverlong()
    ensures Decode([0xC0, 0x80], 0) == Decoded(Replacement, 2)
  {
  }

  lemma DecodeTruncated()
    ensures Decode([0xE2, 0x82], 0) == Decoded(Replacement, 3)
  {
  }

  lemma DecodeBroken()
    ensures Decode([0xE2, 0x41], 0) == Decoded(Replacement, 2)
  {
  }

  /** No range check: a surrogate comes out as it is, and so do values above
      0x10FFFF, from leading bytes 0xF4 and, read like 0xF0-0xF7, 0xFC. */
  lemma DecodeSurrogate()
    ensures Decode([0xED, 0xA0, 0x80], 0) == Decoded(0xD800, 3)
  {
  }

  lemma DecodeAboveMax()
    ensures Decode([0xF4, 0x90, 0x80, 0x80], 0) == Decoded(0x110000, 4)
  {
  }

  lemma DecodeFiveByteLead()
    ensures Decode([0xFC, 0x90, 0x80, 0x80], 0) == Decoded(0x110000, 4)
  {
  }

  /** U+1F600 as UTF-16, directly and through `utf8_widen`; widening stops at
      an embedded NUL. */
  lemma WidenExamples()
    ensures Utf16Encode(0x1F600) == [0xD83D, 0xDE00]
    ensures Widen([0xF0, 0x9F, 0x98, 0x80], 0) == [0xD83D, 0xDE00]
    ensures Widen([0x41, 0, 0x42], 0) == [0x41]
  {
    assert Decode([0xF0, 0x9F, 0x98, 0x80], 0) == Decoded(0x1F600, 4);
  }

  /** A NUL read as the continuation byte of C3 ends that sequence with
      U+FFFD but does not stop the widening loop, which checks only the byte
      in lead position. */
  lemma WidenPastNulContinuation()
    ensures Widen([0xC3, 0x00, 0x41], 0) == [0xFFFD, 0x41]
  {
    var s := [0xC3, 0x00, 0x41];
    assert Decode(s, 0) == Decoded(Replacement, 2);
    assert Decode(s, 2) == Decoded(0x41, 3);
  }
}
