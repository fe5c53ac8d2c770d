/** The reversal loop of `f_utf8_reverse` (src/api/utf8.c lines 143-166):
    codepoints are decoded front to back and re-encoded back to front into an
    output buffer of the input's byte length. */
module Reversal {
  import opened Codec
  import opened Scan

  /** The output index `i` of the source advances by `utf8_size(cp)` while
      the input cursor advances by what `utf8_decode` consumed; the two agree
      only on well-formed input. Fits(s, p, room) says that the loop, with the
      input cursor at p and `room` bytes of output still to fill, never writes
      before the start of the output buffer and never decodes past the
      terminator. */
  predicate Fits(s: seq<Byte>, p: nat, room: nat)
    decreases room
  {
    room == 0 ||
    (p <= |s| &&
     var d := Decode(s, p);
     Size(d.cp) <= room && Fits(s, d.next, room - Size(d.cp)))
  }

  /** The first `room` bytes of the output, when the loop resumes with the
      input cursor at p: each decoded codepoint's encoding goes just before
      the bytes already written. */
  function RevOut(s: seq<Byte>, p: nat, room: nat): (r: seq<Byte>)
    requires Fits(s, p, room)
    ensures |r| == room
    decreases room
  {
    if room == 0 then []
    else
      var d := Decode(s, p);
      RevOut(s, d.next, room - Size(d.cp)) + Encode(d.cp)
  }

  /** The bytes `f_utf8_reverse` returns for s; the empty string for the
      empty input (lines 148-151). */
  function Reversed(s: seq<Byte>): (r: seq<Byte>)
    requires Fits(s, 0, |s|)
    ensures |r| == |s|
  {
    RevOut(s, 0, |s|)
  }

  /** The loop of lines 156-161 over an output buffer of |s| bytes, after
      the terminator has been stored in its last byte (line 154). */
  method ReverseInto(s: seq<Byte>, out: array<Byte>)
    requires 0 < |s| == out.Length && Fits(s, 0, |s|)
    modifies out
    ensures out[..] == Reversed(s)
  {
    ghost var goal := Reversed(s);
    var o: nat := |s|;
    out[o - 1] := 0;
    var i: nat := 0;
    var p: nat := 0;
    while i < |s|
      invariant o + i == |s|
      invariant Fits(s, p, o)
      invariant RevOut(s, p, o) + out[o..] == goal
      decreases o
    {
      var left;
      p, left := ReverseStep(s, out, p, o, goal);
      i := i + (o - left);
      o := left;
    }
    assert o == 0;
    assert out[..] == out[o..];
  }

  /** One iteration of the loop (lines 158-160): decode at p, write the
      encoding just before index o, and move both cursors. */
  method ReverseStep(s: seq<Byte>, out: array<Byte>, p: nat, o: nat, ghost goal: seq<Byte>)
    returns (next: nat, left: nat)
    requires 0 < o <= out.Length && Fits(s, p, o)
    requires RevOut(s, p, o) + out[o..] == goal
    modifies out
    ensures left + Size(Decode(s, p).cp) == o
    ensures next == Decode(s, p).next && Fits(s, next, left)
    ensures RevOut(s, next, left) + out[left..] == goal
    ensures out[..left] == old(out[..left])
  {
    ghost var written := out[o..];
    var cp;
    cp, next := DecodeAt(s, p);
    var n := Size(cp);
    Advance(s, p, o, cp, next, n, written, goal);
    left := o - n;
    Place(out, left, o, cp);
  }

  /** `utf8_encode(out - utf8_size(cp), cp)` (line 159): the encoding of cp
      goes at index `at`, just before index o. */
  method Place(out: array<Byte>, at: nat, o: nat, cp: nat)
    requires at + Size(cp) == o <= out.Length
    modifies out
    ensures out[at..] == Encode(cp) + old(out[o..])
    ensures out[..at] == old(out[..at])
  {
    ghost var written := out[o..];
    var next := EncodeInto(out, at, cp);
    ArrayJoin(out, at, o, Encode(cp), written);
  }

  /** `f_utf8_reverse(s)`. */
  method Utf8Reverse(s: seq<Byte>) returns (r: seq<Byte>)
    requires Fits(s, 0, |s|)
    ensures r == Reversed(s)
  {
    if |s| == 0 {
      return [];
    }
    var out := new Byte[|s|];
    ReverseInto(s, out);
    r := out[..];
  }

  /** One step of the loop, on any buffer: with room left, the codepoint
      decoded at p fits, and its encoding goes just before the bytes already
      written. */
  lemma Advance(s: seq<Byte>, p: nat, room: nat, cp: nat, next: nat, n: nat,
                written: seq<Byte>, goal: seq<Byte>)
    requires 0 < room && Fits(s, p, room)
    requires RevOut(s, p, room) + written == goal
    requires p <= |s| && Decode(s, p) == Decoded(cp, next) && n == Size(cp)
    ensures n <= room && Fits(s, next, room - n)
    ensures RevOut(s, next, room - n) + (Encode(cp) + written) == goal
  {
    Regroup(RevOut(s, next, room - n), Encode(cp), written);
  }

  lemma ArrayJoin(out: array<Byte>, i: nat, j: nat, a: seq<Byte>, b: seq<Byte>)
    requires i <= j <= out.Length && out[i..j] == a && out[j..] == b
    ensures out[i..] == a + b
  {
    assert out[i..] == out[i..j] + out[j..];
  }

  // ---------------------------------------------------------------------
  // Reversal of well-formed input

  /** The elements of x in reverse order. */
  function Rev(x: seq<nat>): (r: seq<nat>)
    ensures |r| == |x|
  {
    if x == [] then [] else Rev(x[1..]) + [x[0]]
  }

  lemma {:induction false} RevIndex(x: seq<nat>, i: nat)
    requires i < |x|
    ensures Rev(x)[i] == x[|x| - 1 - i]
  {
    if i < |x| - 1 {
      RevIndex(x[1..], i);
    }
  }

  lemma {:induction false} RevAppend(a: seq<nat>, b: seq<nat>)
    ensures Rev(a + b) == Rev(b) + Rev(a)
  {
    if a == [] {
      assert a + b == b;
    } else {
      assert (a + b)[1..] == a[1..] + b;
      RevAppend(a[1..], b);
    }
  }

  /** Reversing twice gives the sequence back. */
  lemma {:induction false} RevRev(x: seq<nat>)
    ensures Rev(Rev(x)) == x
  {
    if x != [] {
      RevAppend(Rev(x[1..]), [x[0]]);
      RevRev(x[1..]);
      assert Rev([x[0]]) == [x[0]];
    }
  }

  lemma RevAtMostMax(cps: seq<nat>)
    requires AllAtMostMax(cps)
    ensures AllAtMostMax(Rev(cps))
  {
    forall i | 0 <= i < |cps| ensures Rev(cps)[i] <= MaxCodepoint {
      RevIndex(cps, i);
    }
  }

  /** The loop's step, read backwards: what the loop writes from p is what it
      writes from the next cursor, followed by the encoding decoded at p. */
  lemma RevCons(s: seq<Byte>, p: nat, room: nat, d: Decoded, rest: seq<Byte>)
    requires p <= |s| && 0 < room && Decode(s, p) == d && Size(d.cp) <= room
    requires Fits(s, d.next, room - Size(d.cp))
    requires RevOut(s, d.next, room - Size(d.cp)) == rest
    ensures Fits(s, p, room) && RevOut(s, p, room) == rest + Encode(d.cp)
  {
  }

  /** Reversing a codepoint followed by the rest puts its encoding last. */
  lemma EncodeRevCons(c: nat, rest: seq<nat>)
    ensures EncodeAll(Rev([c] + rest)) == EncodeAll(Rev(rest)) + Encode(c)
  {
    assert ([c] + rest)[1..] == rest;
    EncodeAllAppend(Rev(rest), [c]);
    EncodeAllSingle(c);
  }

  /** From any offset p of a well-formed buffer, the loop fills the rest of
      the output with the encodings of the remaining codepoints in reverse
      order. */
  lemma {:induction false} ReverseFrom(s: seq<Byte>, p: nat, room: nat)
    requires p <= |s| && room == |s| - p && WellFormed(s, p)
    ensures Fits(s, p, room)
    ensures RevOut(s, p, room) == EncodeAll(Rev(Codepoints(s, p)))
    decreases room
  {
    if p < |s| {
      var d := Decode(s, p);
      var cps := Codepoints(s, d.next);
      WellFormedStep(s, p, d, cps);
      ReverseFrom(s, d.next, room - Size(d.cp));
      RevCons(s, p, room, d, EncodeAll(Rev(cps)));
      EncodeRevCons(d.cp, cps);
    } else {
      RevEmpty(s, p, room);
    }
  }

  lemma RevEmpty(s: seq<Byte>, p: nat, room: nat)
    requires p == |s| && room == 0
    ensures Fits(s, p, room) && RevOut(s, p, room) == []
    ensures EncodeAll(Rev(Codepoints(s, p))) == []
  {
  }

  /** `f_utf8_reverse` of the UTF-8 form of values up to 0x10FFFF is the
      UTF-8 form of those values in reverse order; in particular such input never makes
      the loop write outside its buffer. */
  lemma ReversedOfEncoded(cps: seq<nat>)
    requires AllAtMostMax(cps)
    ensures Fits(EncodeAll(cps), 0, |EncodeAll(cps)|)
    ensures Reversed(EncodeAll(cps)) == EncodeAll(Rev(cps))
  {
    var s := EncodeAll(cps);
    EncodedIsWellFormed(cps);
    CodepointsOfEncoded(cps);
    ReverseFrom(s, 0, |s|);
    ReversedIs(s, EncodeAll(Rev(cps)));
  }

  lemma ReversedIs(s: seq<Byte>, t: seq<Byte>)
    requires Fits(s, 0, |s|) && RevOut(s, 0, |s|) == t
    ensures Reversed(s) == t
  {
  }

  /** The reversed string decodes to the codepoints in reverse order. */
  lemma ReversedCodepoints(cps: seq<nat>)
    requires AllAtMostMax(cps)
    ensures Fits(EncodeAll(cps), 0, |EncodeAll(cps)|)
    ensures Codepoints(Reversed(EncodeAll(cps)), 0) == Rev(cps)
  {
    ReversedOfEncoded(cps);
    RevAtMostMax(cps);
    CodepointsOfEncoded(Rev(cps));
  }

  /** Reversing a well-formed string twice gives it back. */
  lemma ReverseTwice(cps: seq<nat>)
    requires AllAtMostMax(cps)
    ensures Fits(EncodeAll(cps), 0, |EncodeAll(cps)|)
    ensures Fits(Reversed(EncodeAll(cps)), 0, |EncodeAll(cps)|)
    ensures Reversed(Reversed(EncodeAll(cps))) == EncodeAll(cps)
  {
    ReversedOfEncoded(cps);
    RevAtMostMax(cps);
    ReversedOfEncoded(Rev(cps));
    RevRev(cps);
  }

  /** The same for any well-formed buffer: its reversal is well-formed,
      decodes to its codepoints in reverse order, and reversing it again
      gives the buffer back. */
  lemma ReverseWellFormed(s: seq<Byte>)
    requires WellFormed(s, 0)
    ensures Fits(s, 0, |s|) && WellFormed(Reversed(s), 0)
    ensures Codepoints(Reversed(s), 0) == Rev(Codepoints(s, 0))
    ensures Fits(Reversed(s), 0, |s|) && Reversed(Reversed(s)) == s
  {
    var cps := Codepoints(s, 0);
    WellFormedIsEncoded(s, 0);
    assert s[0..] == s;
    ReverseTwice(cps);
    ReversedCodepoints(cps);
    RevAtMostMax(cps);
    ReversedOfEncoded(cps);
    EncodedIsWellFormed(Rev(cps));
  }
}
