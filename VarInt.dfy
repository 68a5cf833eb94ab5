/**
 * The protocol's VarInt: an `int` written seven bits per byte, low-order group first, with the
 * continuation bit 0x80 on every byte but the last (unsigned LEB128 of the 32-bit two's-complement
 * pattern, so a negative value always takes five bytes).
 *
 * Bit operations are stated on the unsigned pattern `u` of the Java `int`:
 * `(value & ~SEGMENT_BITS) == 0` is `u < 128`, `value & SEGMENT_BITS | CONTINUE_BIT` is
 * `u % 128 + 128`, and `value >>>= 7` is `u / 128`.
 */
module VarInt {
  import opened Results
  import opened JavaLang
  import opened Wire

  const SEGMENT_BITS: int := 0x7F
  const CONTINUE_BIT: int := 0x80

  /** The bytes writeVarInt emits once the pattern left to write is `u`. */
  function Groups(u: nat): (bs: seq<Byte>)
    ensures 1 <= |bs|
    decreases u
  {
    if u < 128 then [u] else [u % 128 + CONTINUE_BIT] + Groups(u / 128)
  }

  /** Every group but the last carries the continuation bit. */
  lemma {:induction false} GroupsContinue(u: nat)
    ensures Groups(u)[|Groups(u)| - 1] < CONTINUE_BIT
    ensures forall i :: 0 <= i < |Groups(u)| - 1 ==> Groups(u)[i] >= CONTINUE_BIT
    decreases u
  {
    if u >= 128 {
      GroupsContinue(u / 128);
    }
  }

  /** The number of bytes the encoding of the pattern `u` takes. */
  lemma {:induction false} GroupsLength(u: Uint32)
    ensures |Groups(u)| == if u < 0x80 then 1
                           else if u < 0x4000 then 2
                           else if u < 0x20_0000 then 3
                           else if u < 0x1000_0000 then 4
                           else 5
    decreases u
  {
    if u >= 128 {
      GroupsLength(u / 128);
    }
  }

  /** writeVarInt(out, v): the bytes appended to `out`. */
  function Encode(v: Int32): (bs: seq<Byte>)
    ensures 1 <= |bs| <= 5
    ensures 0 <= v < 0x80 ==> bs == [v]
    ensures v < 0 ==> |bs| == 5
  {
    GroupsLength(Unsigned(v));
    Groups(Unsigned(v))
  }

  /** The written bytes carry 0x80 on all but the last, which is below 0x80. */
  lemma EncodeContinuation(v: Int32)
    ensures Encode(v)[|Encode(v)| - 1] < CONTINUE_BIT
    ensures forall i :: 0 <= i < |Encode(v)| - 1 ==> Encode(v)[i] >= CONTINUE_BIT
  {
    GroupsContinue(Unsigned(v));
  }

  /** writeVarInt: emits the group under the continuation bit until no bits above the low seven remain. */
  method WriteVarInt(value: Int32) returns (out: seq<Byte>)
    ensures out == Encode(value)
  {
    var v: nat := Unsigned(value);
    ghost var all := Groups(v);
    out := [];
    while true
      invariant out + Groups(v) == all
      decreases v
    {
      if v < 128 {
        out := out + [v];
        return;
      }
      var group := v % 128 + CONTINUE_BIT;
      assert Groups(v) == [group] + Groups(v / 128);
      assert out + Groups(v) == (out + [group]) + Groups(v / 128);
      out := out + [group];
      v := v / 128;
    }
  }

  // ---------------------------------------------------------------------------------------
  // Reading
  // ---------------------------------------------------------------------------------------

  /** A decoded value and the position just after its last byte. */
  datatype Decoded = Decoded(value: Int32, next: nat)

  /** Where readVarInt puts the next group: `position` is 0, 7, 14, 21 or 28. */
  predicate IsShift(position: nat) {
    position % 7 == 0 && position < 32
  }

  /** `1 << position` for the five shifts readVarInt uses. */
  function Weight(position: nat): (w: nat)
    requires IsShift(position)
    ensures w > 0
  {
    if position == 0 then 0x1
    else if position == 7 then 0x80
    else if position == 14 then 0x4000
    else if position == 21 then 0x20_0000
    else 0x1000_0000
  }

  lemma WeightNext(position: nat)
    requires IsShift(position)
    ensures position + 7 < 32 ==> Weight(position + 7) == 128 * Weight(position)
  {
  }

  /**
   * Java's `value |= (currentByte & SEGMENT_BITS) << position`. Since `acc` only holds bits
   * below `position`, the OR is an addition; the shift by 28 keeps only the low 32 bits of the
   * group, hence the `% TWO_32`.
   */
  function Accumulate(acc: nat, b: Byte, position: nat): (r: nat)
    requires IsShift(position) && acc < Weight(position)
    ensures r < TWO_32
    ensures position + 7 < 32 ==> r < Weight(position + 7)
  {
    GroupBound(acc, b % 128, Weight(position));
    WeightNext(position);
    (acc + b % 128 * Weight(position)) % TWO_32
  }

  /** Splitting off the low group of `u` at weight `w`. */
  lemma MulSplit(u: nat, w: nat)
    ensures u * w == (u / 128) * (128 * w) + (u % 128) * w
  {
    calc {
      u * w;
      ((u / 128) * 128 + u % 128) * w;
      (u / 128) * 128 * w + (u % 128) * w;
    }
  }

  /** One more group fits below the next weight. */
  lemma GroupBound(acc: nat, g: nat, w: nat)
    requires acc < w && g < 128
    ensures acc + g * w < 128 * w
  {
    assert g * w <= 127 * w;
  }

  /** readVarInt, from the group at bit `position` of the result, when the bits read so far are `acc`. */
  function DecodeFrom(s: seq<Byte>, pos: nat, position: nat, acc: nat): (r: Result<Decoded, ProbeError>)
    requires IsShift(position)
    requires acc < Weight(position)
    ensures r.Success? ==> pos < r.value.next <= pos + (35 - position) / 7
    decreases 32 - position
  {
    if pos >= |s| then Failure(EndOfStream)
    else
      var b := s[pos];
      var acc' := Accumulate(acc, b, position);
      if b < CONTINUE_BIT then Success(Decoded(Signed(acc'), pos + 1))
      else if position + 7 >= 32 then Failure(VarIntTooBig)
      else DecodeFrom(s, pos + 1, position + 7, acc')
  }

  /** readVarInt on the stream `s` positioned at `pos`. */
  function Decode(s: seq<Byte>, pos: nat): (r: Result<Decoded, ProbeError>)
    ensures r.Success? ==> pos < r.value.next <= pos + 5
  {
    DecodeFrom(s, pos, 0, 0)
  }

  /** readVarInt: accumulates seven-bit groups until a byte without the continuation bit. */
  method ReadVarInt(s: seq<Byte>, pos: nat) returns (r: Result<Decoded, ProbeError>)
    ensures r == Decode(s, pos)
  {
    var value: nat := 0;
    var position: nat := 0;
    var p: nat := pos;
    while true
      invariant IsShift(position)
      invariant value < Weight(position)
      invariant DecodeFrom(s, p, position, value) == Decode(s, pos)
      decreases 32 - position
    {
      if p >= |s| {
        return Failure(EndOfStream);
      }
      var currentByte := s[p];
      p := p + 1;
      value := Accumulate(value, currentByte, position);
      if currentByte < CONTINUE_BIT {
        return Success(Decoded(Signed(value), p));
      }
      position := position + 7;
      if position >= 32 {
        return Failure(VarIntTooBig);
      }
    }
  }

  // ---------------------------------------------------------------------------------------
  // Properties
  // ---------------------------------------------------------------------------------------

  /** Reading the groups of `u` at `position` adds `u`'s bits above `acc`. */
  lemma {:induction false} DecodeGroups(s: seq<Byte>, pos: nat, position: nat, acc: nat, u: nat)
    requires IsShift(position)
    requires acc < Weight(position)
    requires acc + u * Weight(position) < TWO_32
    requires pos + |Groups(u)| <= |s| && s[pos .. pos + |Groups(u)|] == Groups(u)
    ensures DecodeFrom(s, pos, position, acc)
         == Success(Decoded(Signed(acc + u * Weight(position)), pos + |Groups(u)|))
    decreases u
  {
    assert s[pos] == Groups(u)[0];
    if u < 128 {
      DecodeLastGroup(s, pos, position, acc, u);
    } else {
      var acc' := DecodeInnerGroup(s, pos, position, acc, u);
      assert s[pos + 1 .. pos + |Groups(u)|] == Groups(u / 128);
      DecodeGroups(s, pos + 1, position + 7, acc', u / 128);
    }
  }

  /** The last group: its byte has no continuation bit and completes the value. */
  lemma DecodeLastGroup(s: seq<Byte>, pos: nat, position: nat, acc: nat, u: nat)
    requires IsShift(position)
    requires acc < Weight(position)
    requires acc + u * Weight(position) < TWO_32
    requires u < 128 && pos < |s| && s[pos] == u
    ensures DecodeFrom(s, pos, position, acc) == Success(Decoded(Signed(acc + u * Weight(position)), pos + 1))
  {
    assert Accumulate(acc, s[pos], position) == acc + u * Weight(position);
  }

  /** An inner group: its byte carries the continuation bit and the low seven bits of `u`. */
  lemma DecodeInnerGroup(s: seq<Byte>, pos: nat, position: nat, acc: nat, u: nat) returns (acc': nat)
    requires IsShift(position)
    requires acc < Weight(position)
    requires acc + u * Weight(position) < TWO_32
    requires u >= 128 && pos < |s| && s[pos] == u % 128 + CONTINUE_BIT
    ensures IsShift(position + 7) && acc' < Weight(position + 7)
    ensures acc' + (u / 128) * Weight(position + 7) == acc + u * Weight(position)
    ensures DecodeFrom(s, pos, position, acc) == DecodeFrom(s, pos + 1, position + 7, acc')
  {
    var P := Weight(position);
    var g := u % 128;
    acc' := acc + g * P;
    MulSplit(u, P);
    GroupBound(acc, g, P);
    MulMono(u, 128, P);
    assert position + 7 < 32 by {
      assert position == 28 ==> P == 0x1000_0000;
    }
    WeightNext(position);
    assert Accumulate(acc, s[pos], position) == acc';
  }

  /** Round trip: readVarInt returns what writeVarInt wrote, consuming exactly those bytes. */
  lemma EncodeDecode(v: Int32, s: seq<Byte>, pos: nat)
    requires pos + |Encode(v)| <= |s| && s[pos .. pos + |Encode(v)|] == Encode(v)
    ensures Decode(s, pos) == Success(Decoded(v, pos + |Encode(v)|))
  {
    DecodeGroups(s, pos, 0, 0, Unsigned(v));
  }

  /** The round trip at the head of a stream. */
  lemma EncodeDecodePrefix(v: Int32, rest: seq<Byte>)
    ensures Decode(Encode(v) + rest, 0) == Success(Decoded(v, |Encode(v)|))
  {
    var s := Encode(v) + rest;
    assert s[0 .. |Encode(v)|] == Encode(v);
    EncodeDecode(v, s, 0);
  }

  lemma {:induction false} DecodeFromContinuations(s: seq<Byte>, pos: nat, position: nat, acc: nat)
    requires IsShift(position)
    requires acc < Weight(position)
    requires pos + (35 - position) / 7 <= |s|
    requires forall i :: pos <= i < pos + (35 - position) / 7 ==> s[i] >= CONTINUE_BIT
    ensures DecodeFrom(s, pos, position, acc) == Failure(VarIntTooBig)
    decreases 32 - position
  {
    if position + 7 < 32 {
      var acc' := Accumulate(acc, s[pos], position);
      DecodeFromContinuations(s, pos + 1, position + 7, acc');
    }
  }

  /** Five bytes in a row with the continuation bit: "VarInt is too big". */
  lemma FiveContinuationBytes(s: seq<Byte>, pos: nat)
    requires pos + 5 <= |s|
    requires forall i :: pos <= i < pos + 5 ==> s[i] >= CONTINUE_BIT
    ensures Decode(s, pos) == Failure(VarIntTooBig)
  {
    DecodeFromContinuations(s, pos, 0, 0);
  }

  lemma {:induction false} DecodeFromPrefix(s: seq<Byte>, t: seq<Byte>, pos: nat, position: nat, acc: nat)
    requires IsShift(position)
    requires acc < Weight(position)
    requires pos + (35 - position) / 7 <= |t| <= |s| && t == s[..|t|]
    ensures DecodeFrom(s, pos, position, acc) == DecodeFrom(t, pos, position, acc)
    decreases 32 - position
  {
    if position + 7 < 32 {
      var acc' := Accumulate(acc, s[pos], position);
      DecodeFromPrefix(s, t, pos + 1, position + 7, acc');
    }
  }

  /** readVarInt never looks past the fifth byte: cutting the stream there changes nothing. */
  lemma DecodeReadsAtMostFive(s: seq<Byte>, pos: nat)
    requires pos + 5 <= |s|
    ensures Decode(s, pos) == Decode(s[..pos + 5], pos)
  {
    DecodeFromPrefix(s, s[..pos + 5], pos, 0, 0);
  }
}
