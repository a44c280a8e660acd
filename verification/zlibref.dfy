/**
 The independent C++ compressor, modelled from its own text, and the proof that
 it and the codec produce the same bytes, count and verdict.
 */
module ZlibReference {
  import opened Bytes
  import opened CodecSpec
  import Codec

  /** `static_cast<uint8_t>((~(1U << shift) & b) + (bit << shift))`, computed in 32 bits. */
  function SetBit(b: byte, shift: nat, bit: byte): byte
    requires shift < 8
  {
    var mask: bv32 := !(Shifted(1, shift) as bv32);
    (((mask & (b as bv32)) + (Shifted(bit, shift) as bv32)) & 0xFF) as byte
  }

  lemma WideningIsHarmless(b: byte, m: byte, bit: byte)
    requires bit == 0 || bit == m
    ensures ((((!(m as bv32)) & (b as bv32)) + (bit as bv32)) & 0xFF) as byte == (!m & b) + bit
  {
  }

  /** Widening to 32 bits and truncating again changes nothing. */
  lemma SetBitIsGoSetBit(b: byte, shift: nat, bit: byte)
    requires shift < 8 && bit <= 1
    ensures SetBit(b, shift, bit) == Codec.SetBit(b, shift, bit)
  {
    hide Shifted;
    ShiftedIsOneBit(shift);
    assert bit == 0 || bit == 1;
    WideningIsHarmless(b, Shifted(1, shift), Shifted(bit, shift));
  }

  /** The sizes here are computed without wrap-around, so every length over 32 is refused. */
  method CompressSub(pattern: seq<byte>, read: uint32, elem: uint32, out: array<byte>, base: nat) returns (r: int)
    requires |pattern| == 4 && base <= out.Length <= MAX_BUFFER && read <= 8 * MAX_BUFFER
    modifies out
    ensures forall j :: 0 <= j < base ==> out[j] == old(out[j])
    ensures r == if elem > 32 || BytesFor(Add32(read, elem)) > out.Length - base then -1 else 0
    ensures r == -1 ==> out[..] == old(out[..])
    ensures r == 0 ==> read + elem <= 8 * (out.Length - base)
                       && BitsOf(out[base..])
                         == Codec.Overwrite(BitsOf(old(out[base..])), read, BitsOf(pattern)[..elem])
  {
    hide SetBit, Codec.SetBit, BitAt, BitOf, BitsOf;
    if BytesFor(elem) > 4 {
      return -1;
    }
    if BytesFor(Add32(read, elem)) > out.Length - base {
      return -1;
    }
    ghost var before := BitsOf(out[base..]);
    for i := 0 to elem
      invariant forall j :: 0 <= j < base ==> out[j] == old(out[j])
      invariant BitsOf(out[base..]) == Codec.Overwrite(before, read, BitsOf(pattern)[..i])
    {
      var bit := BitAt(pattern[i / 8], i % 8);
      Codec.NextBit(before, read, pattern, i, bit);
      PutBit(out, base, read + i, bit);
    }
    return 0;
  }

  /** The body of that loop. */
  method PutBit(out: array<byte>, base: nat, n: nat, bit: byte)
    requires base <= out.Length && n < 8 * (out.Length - base) && bit <= 1
    modifies out
    ensures forall j :: 0 <= j < base ==> out[j] == old(out[j])
    ensures BitsOf(out[base..]) == BitsOf(old(out[base..]))[n := bit == 1]
  {
    hide SetBit, Codec.SetBit, BitsOf;
    var shift := n % 8;
    var index := n / 8;
    ghost var s := out[base..];
    Codec.SetBitInStream(s, n, bit);
    SetBitIsGoSetBit(out[base + index], shift, bit);
    out[base + index] := SetBit(out[base + index], shift, bit);
    assert out[base..] == s[index := Codec.SetBit(s[index], shift, bit)];
  }

  /** The fallback of the reference: three clamped fills. */
  method StampOver(out: array<byte>, size: nat)
    requires out.Length > 0
    modifies out
    ensures out[..] == Stamped(old(out[..]), size)
  {
    hide Stamped, ByteOf, Codec.Filled;
    var zeroLen := out.Length / 4 + size % 4;
    var midLen := size / 4;
    var finalLen := size % 4;
    ghost var s0 := out[..];
    Codec.Fill(out, 0, Min(zeroLen, out.Length), 0);
    ghost var s1 := out[..];
    Codec.NothingFilled(s1, 1, ByteOf(size % 256));
    if midLen > 0 && out.Length > 1 {
      Codec.Fill(out, 1, Min(midLen, out.Length - 1), ByteOf(size % 256));
    }
    ghost var s2 := out[..];
    var offset := 1 + midLen;
    Codec.NothingFilled(s2, Min(offset, out.Length), ByteOf((size + 1) * 8 % 256));
    if finalLen > 0 && offset < out.Length {
      Codec.Fill(out, offset, Min(finalLen, out.Length - offset), ByteOf((size + 1) * 8 % 256));
    }
    Codec.ThreeFills(s0, s1, s2, out[..], size);
  }

  lemma RoomLeft(read: uint32, elem: uint32, room: nat)
    requires Add32(elem, read) < 8 * room
    ensures BytesFor(Add32(read, elem)) <= room
  {
  }

  /**
   What the reference makes of an input: what the codec does, but that a
   wrapping length is refused like any over 32.
   */
  function ReferenceInto(enc: EncodeTable, input: seq<byte>, before: seq<byte>): Compressed
    requires 0 < |before| <= MAX_BUFFER
  {
    var maxBits := 8 * (|before| - 1);
    ScanIsWithin(enc, input, 0, maxBits);
    assert input[..0] == [];
    var scan := ScanFrom(enc, input, 0, 0, maxBits);
    if scan.Breaks? then Compressed(0, Some(PatternTooWide), WriteBits(before, CodeString(enc, input[..scan.at])))
    else CompressInto(enc, input, before)
  }

  /** The reference meets a length that the codec breaks on. */
  lemma RefusesWhereTheCodecBreaks(enc: EncodeTable, input: seq<byte>, before: seq<byte>, k: nat, image: seq<byte>)
    requires 0 < |before| <= MAX_BUFFER && k < |input| && Codec.Encoded(enc, input, k, before, image)
    ensures ScanFrom(enc, input, 0, 0, 8 * (|before| - 1)) == Breaks(k) ==>
              ReferenceInto(enc, input, before) == Compressed(0, Some(PatternTooWide), image)
    ensures !ScanFrom(enc, input, 0, 0, 8 * (|before| - 1)).Breaks? ==>
              ReferenceInto(enc, input, before) == CompressInto(enc, input, before)
  {
    hide CodeString, Code, BitsOf, WriteBits, CompressInto;
  }

  lemma SameWhereNothingBreaks(enc: EncodeTable, input: seq<byte>, before: seq<byte>)
    requires 0 < |before| <= MAX_BUFFER && !ScanFrom(enc, input, 0, 0, 8 * (|before| - 1)).Breaks?
    ensures ReferenceInto(enc, input, before) == CompressInto(enc, input, before)
  {
    hide CodeString, CompressInto, WriteBits;
  }

  /** Returns the bit count, the input size after a fallback, or -1. */
  method Compress(enc: EncodeTable, input: seq<byte>, out: array<byte>) returns (r: int)
    requires enc == [] || |enc| >= 512
    requires 0 < out.Length <= MAX_BUFFER && |input| < 0x8000_0000
    modifies out
    ensures enc == [] ==> r == -1 && out[..] == old(out[..])
    ensures enc != [] ==>
      var reference := ReferenceInto(enc, input, old(out[..]));
      && r == (if reference.err == None then reference.bits else -1)
      && out[..] == reference.image
  {
    hide CodeString, Code, BitOf, BitsOf, PutUint32, WriteBits, Stamped, ScanFrom, Codec.Overwrite, Codec.Encoded,
      CompressInto, ReferenceInto, BytesFor, Add32, Signed;
    if |enc| == 0 {
      return -1;
    }
    var read: uint32 := 0;
    var maxBits: uint32 := (out.Length - 1) * 8;
    ghost var before := out[..];
    Codec.EncodedStart(enc, input, before);
    for i := 0 to |input|
      invariant Encodable(enc, input[..i]) && Codec.Encoded(enc, input, i, before, out[..])
      invariant read == |CodeString(enc, input[..i])| && (read == 0 || read < maxBits)
      invariant ScanFrom(enc, input, 0, 0, maxBits) == ScanFrom(enc, input, i, read, maxBits)
    {
      var symbol := Signed(input[i]);
      ScanStep(enc, input, i, read, maxBits);
      ghost var image := out[..];
      Codec.OutcomeOf(enc, input, before, i, image);
      RefusesWhereTheCodecBreaks(enc, input, before, i, image);
      var elem := enc[symbol + 0x180];
      if Add32(elem, read) < maxBits {
        var bytes := PutUint32(enc[symbol + 0x80]);
        RoomLeft(read, elem, out.Length - 1);
        var sub := CompressSub(bytes, read, elem, out, 1);
        if sub != 0 {
          return -1;
        }
        Codec.CodeIsPattern(enc, input[i]);
        Codec.EncodedNext(enc, input, i, before, image, out[..]);
        read := read + elem;
      } else if |input| + 1 >= out.Length {
        StampOver(out, |input|);
        return |input|;
      } else {
        return -1;
      }
    }
    ScanEnds(enc, input, read, maxBits);
    Codec.OutcomeOf(enc, input, before, |input|, out[..]);
    SameWhereNothingBreaks(enc, input, before);
    out[0] := 1;
    return read + 8;
  }

  /**
   Run side by side on equal buffers, the two compressors cannot be told apart,
   except on exactly those inputs on which the codec breaks off: there the
   reference returns -1 and has written the codes before that point only.
   */
  method CompressorsAgree(codec: Codec.FFXICodec, input: seq<byte>, a: array<byte>, b: array<byte>)
    returns (bits: uint32, err: Option<CompressError>, r: int)
    requires codec.initErr == None && |codec.encTable| >= 512
    requires a != b && a[..] == b[..] && 0 < a.Length <= MAX_BUFFER && |input| < 0x8000_0000
    modifies a, b
    ensures r == if err == None then bits else -1
    ensures err == Some(IndexPanic) <==> ScanFrom(codec.encTable, input, 0, 0, 8 * (a.Length - 1)).Breaks?
    ensures err != Some(IndexPanic) ==> a[..] == b[..]
    ensures err == Some(IndexPanic) ==> b[..] == ReferenceInto(codec.encTable, input, old(a[..])).image
  {
    hide ScanFrom, ReferenceInto, CompressInto;
    ghost var before := a[..];
    BreaksExactly(codec.encTable, input, before);
    bits, err := codec.Compress(input, a);
    assert b[..] == before;
    ghost var image := a[..];
    r := Compress(codec.encTable, input, b);
    assert a[..] == image;
  }

  lemma BreaksExactly(enc: EncodeTable, input: seq<byte>, before: seq<byte>)
    requires 0 < |before| <= MAX_BUFFER
    ensures var breaks := ScanFrom(enc, input, 0, 0, 8 * (|before| - 1)).Breaks?;
            && (CompressInto(enc, input, before).err == Some(IndexPanic) <==> breaks)
            && (breaks ==> ReferenceInto(enc, input, before).err.Some?)
            && (!breaks ==> ReferenceInto(enc, input, before) == CompressInto(enc, input, before))
  {
    hide CodeString, WriteBits, Stamped, ScanFrom;
  }

  /** With valid code lengths nothing breaks, so that the two agree on all such tables. */
  lemma {:induction false} ValidLengthsNeverBreak(enc: EncodeTable, input: seq<byte>, k: nat, read: uint32,
                                                  maxBits: nat)
    requires k <= |input| && forall i :: 0 <= i < |input| && InTable(enc, input[i]) ==>
      CodeLength(enc, input[i]) < WRAPPING_LENGTH
    ensures !ScanFrom(enc, input, k, read, maxBits).Breaks?
    decreases |input| - k
  {
    if k < |input| && InTable(enc, input[k]) {
      ValidLengthsNeverBreak(enc, input, k + 1, Add32(CodeLength(enc, input[k]), read), maxBits);
    }
  }
}
