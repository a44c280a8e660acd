/**
 The codec as the program runs it: the bit writer over a reused buffer, the
 table loader, and the two loops, each proved against `CodecSpec`.
 */
module Codec {
  import opened Bytes
  import opened CodecSpec

  // ---------------------------------------------------------------- the bit writer

  /** `(invMask & b) + (bit << shift)`. */
  function SetBit(b: byte, shift: nat, bit: byte): byte
    requires shift < 8
  {
    (!Shifted(1, shift) & b) + Shifted(bit, shift)
  }

  lemma MaskedSum(b: byte, m: byte)
    requires OneBit(m)
    ensures (!m & b) + m == (!m & b) | m
    ensures (!m & b) + 0 == (!m & b) | 0
  {
  }

  lemma MaskedBit(b: byte, m: byte, n: byte)
    requires OneBit(m) && OneBit(n)
    ensures ((!m & b) | m) & n != 0 <==> m == n || b & n != 0
    ensures ((!m & b) | 0) & n != 0 <==> m != n && b & n != 0
  {
  }

  /** The sum never carries: it is the disjunction of the masked byte and the shifted bit. */
  lemma SetBitNeverCarries(b: byte, shift: nat, bit: byte)
    requires shift < 8 && bit <= 1
    ensures SetBit(b, shift, bit) == (!Shifted(1, shift) & b) | Shifted(bit, shift)
  {
    hide Shifted;
    ShiftedIsOneBit(shift);
    MaskedSum(b, Shifted(1, shift));
    assert bit == 0 || bit == 1;
  }

  lemma SetBitSetsOneBit(b: byte, shift: nat, bit: byte, k: nat)
    requires shift < 8 && bit <= 1 && k < 8
    ensures BitOf(SetBit(b, shift, bit), k) == if k == shift then bit == 1 else BitOf(b, k)
  {
    hide Shifted, BitOf, SetBit;
    SetBitNeverCarries(b, shift, bit);
    BitOfIsMask(SetBit(b, shift, bit), k);
    BitOfIsMask(b, k);
    ShiftedIsOneBit(shift);
    ShiftedIsOneBit(k);
    ShiftedInjective(shift, k);
    MaskedBit(b, Shifted(1, shift), Shifted(1, k));
    assert bit == 0 || bit == 1;
  }

  lemma SetBitInStream(s: seq<byte>, n: nat, bit: byte)
    requires n < 8 * |s| && bit <= 1
    ensures BitsOf(s[n / 8 := SetBit(s[n / 8], n % 8, bit)]) == BitsOf(s)[n := bit == 1]
  {
    hide SetBit, BitOf;
    var t := s[n / 8 := SetBit(s[n / 8], n % 8, bit)];
    forall j | 0 <= j < 8 * |s|
      ensures BitsOf(t)[j] == BitsOf(s)[n := bit == 1][j]
    {
      if j / 8 == n / 8 {
        SetBitSetsOneBit(s[n / 8], n % 8, bit, j % 8);
      }
    }
  }

  /** `bits` with `patch` laid over it from position `at`. */
  function Overwrite(bits: seq<bool>, at: nat, patch: seq<bool>): (r: seq<bool>)
    requires at + |patch| <= |bits|
    ensures |r| == |bits|
  {
    bits[..at] + patch + bits[at + |patch|..]
  }

  lemma OverwriteNext(bits: seq<bool>, at: nat, patch: seq<bool>, next: bool)
    requires at + |patch| < |bits|
    ensures Overwrite(bits, at, patch)[at + |patch| := next] == Overwrite(bits, at, patch + [next])
  {
  }

  /** `int((bits + 7) / 8)`, wrapping. */
  function CompressedSize(bits: uint32): nat {
    Add32(bits, 7) / 8
  }

  /** The size in whole bytes, which a length close to the largest makes wrap around to none. */
  lemma CompressedSizeWraps(bits: uint32)
    ensures bits <= 0xFFFF_FFF8 ==> 8 * CompressedSize(bits) - 8 < bits <= 8 * CompressedSize(bits)
    ensures bits > 0xFFFF_FFF8 ==> CompressedSize(bits) == 0
  {
  }

  /**
   Lays the first `elem` bits of the pattern over the stream from bit `read`, and
   touches nothing else.  A length that makes its size in bytes wrap around
   passes both checks; then the pattern's bits go out until an index is out of range.
   */
  method CompressSub(bitPattern: seq<byte>, read: uint32, elem: uint32, dst: array<byte>, base: nat)
    returns (err: Option<CompressError>)
    requires |bitPattern| == 4 && base <= dst.Length <= MAX_BUFFER && read <= 8 * MAX_BUFFER
    modifies dst
    ensures forall j :: 0 <= j < base ==> dst[j] == old(dst[j])
    ensures err == if CompressedSize(elem) > 4 then Some(PatternTooWide)
                   else if CompressedSize(Add32(read, elem)) > dst.Length - base then Some(OutputExceeded)
                   else if elem > 32 then Some(IndexPanic)
                   else None
    ensures err == Some(PatternTooWide) || err == Some(OutputExceeded) ==> dst[..] == old(dst[..])
    ensures err == None ==> read + elem <= 8 * (dst.Length - base)
                            && BitsOf(dst[base..])
                              == Overwrite(BitsOf(old(dst[base..])), read, BitsOf(bitPattern)[..elem])
    ensures err == Some(IndexPanic) ==>
      var room := 8 * (dst.Length - base);
      if read >= room then dst[..] == old(dst[..])
      else BitsOf(dst[base..]) == Overwrite(BitsOf(old(dst[base..])), read, BitsOf(bitPattern)[..Min(32, room - read)])
  {
    hide BitAt, BitsOf, CompressedSize, Add32, Overwrite;
    if CompressedSize(elem) > 4 {
      return Some(PatternTooWide);
    }
    if CompressedSize(Add32(read, elem)) > dst.Length - base {
      return Some(OutputExceeded);
    }
    ghost var before, room := BitsOf(dst[base..]), 8 * (dst.Length - base);
    RoomChecked(read, elem, dst.Length - base, before, bitPattern);
    var i := 0;
    while i < elem
      invariant 0 <= i <= elem && i <= 32 && (i > 0 ==> read + i <= room)
      invariant forall j :: 0 <= j < base ==> dst[j] == old(dst[j])
      invariant i == 0 ==> dst[..] == old(dst[..])
      invariant read + i <= room ==> BitsOf(dst[base..]) == Overwrite(before, read, BitsOf(bitPattern)[..i])
    {
      if i / 8 >= |bitPattern| {
        return Some(IndexPanic);
      }
      var bit := BitAt(bitPattern[i / 8], i % 8);
      if (read + i) / 8 >= dst.Length - base {
        return Some(IndexPanic);
      }
      NextBit(before, read, bitPattern, i, bit);
      PutBit(dst, base, read + i, bit);
      i := i + 1;
    }
    return None;
  }

  lemma RoomChecked(read: uint32, elem: uint32, bytes: nat, before: seq<bool>, pattern: seq<byte>)
    requires CompressedSize(Add32(read, elem)) <= bytes && read <= 8 * MAX_BUFFER
    ensures elem <= 32 ==> read + elem <= 8 * bytes
    ensures read <= |before| ==> Overwrite(before, read, BitsOf(pattern)[..0]) == before
  {
  }

  lemma NextBit(before: seq<bool>, read: nat, pattern: seq<byte>, i: nat, bit: byte)
    requires i < 8 * |pattern| && read + i < |before| && bit == BitAt(pattern[i / 8], i % 8)
    ensures bit <= 1
    ensures Overwrite(before, read, BitsOf(pattern)[..i])[read + i := bit == 1]
      == Overwrite(before, read, BitsOf(pattern)[..i + 1])
  {
    hide BitOf;
    OverwriteNext(before, read, BitsOf(pattern)[..i], bit == 1);
    assert BitsOf(pattern)[..i + 1] == BitsOf(pattern)[..i] + [bit == 1];
  }

  /** The body of the writer's loop: one bit at position `n` of the stream from `base` on. */
  method PutBit(dst: array<byte>, base: nat, n: nat, bit: byte)
    requires base <= dst.Length && n < 8 * (dst.Length - base) && bit <= 1
    modifies dst
    ensures forall j :: 0 <= j < base ==> dst[j] == old(dst[j])
    ensures BitsOf(dst[base..]) == BitsOf(old(dst[base..]))[n := bit == 1]
  {
    hide SetBit, BitsOf;
    var shift := n % 8;
    var index := n / 8;
    ghost var s := dst[base..];
    SetBitInStream(s, n, bit);
    dst[base + index] := SetBit(dst[base + index], shift, bit);
    assert dst[base..] == s[index := SetBit(s[index], shift, bit)];
  }

  // ---------------------------------------------------------------- the fallback

  /** `after` is `before` with `count` bytes from `from` on replaced by `value`. */
  predicate Filled(before: seq<byte>, after: seq<byte>, from: nat, count: nat, value: byte) {
    && |after| == |before|
    && forall j :: 0 <= j < |before| ==> after[j] == if from <= j < from + count then value else before[j]
  }

  lemma ThreeFills(s0: seq<byte>, s1: seq<byte>, s2: seq<byte>, s3: seq<byte>, inputLen: nat)
    requires |s0| > 0 && Filled(s0, s1, 0, Min(|s0| / 4 + inputLen % 4, |s0|), 0)
    requires Filled(s1, s2, 1, Min(inputLen / 4, |s0| - 1), ByteOf(inputLen % 256))
    requires var offset := Min(1 + inputLen / 4, |s0|);
             Filled(s2, s3, offset, Min(inputLen % 4, |s0| - offset), ByteOf((inputLen + 1) * 8 % 256))
    ensures s3 == Stamped(s0, inputLen)
  {
    hide ByteOf;
  }

  lemma NothingFilled(s: seq<byte>, from: nat, value: byte)
    ensures Filled(s, s, from, 0, value)
  {
  }

  /** One of the loops that set `count` bytes from `from` on. */
  method Fill(dst: array<byte>, from: nat, count: nat, value: byte)
    requires from + count <= dst.Length
    modifies dst
    ensures Filled(old(dst[..]), dst[..], from, count, value)
  {
    for i := 0 to count
      invariant Filled(old(dst[..]), dst[..], from, i, value)
    {
      dst[from + i] := value;
    }
  }

  method FillOverflowOutput(dst: array<byte>, inputLen: nat)
    modifies dst
    ensures dst.Length > 0 ==> dst[..] == Stamped(old(dst[..]), inputLen)
  {
    hide Stamped, ByteOf, Filled;
    if dst.Length == 0 {
      return;
    }
    ghost var s0 := dst[..];
    var zeroLen := dst.Length / 4 + inputLen % 4;
    if zeroLen > dst.Length {
      zeroLen := dst.Length;
    }
    Fill(dst, 0, zeroLen, 0);
    ghost var s1 := dst[..];
    if dst.Length <= 1 {
      NothingFilled(s1, 1, ByteOf(inputLen % 256));
      NothingFilled(s1, 1, ByteOf((inputLen + 1) * 8 % 256));
      ThreeFills(s0, s1, s1, s1, inputLen);
      return;
    }
    var secondLen := inputLen / 4;
    if secondLen > dst.Length - 1 {
      secondLen := dst.Length - 1;
    }
    Fill(dst, 1, secondLen, ByteOf(inputLen % 256));
    ghost var s2 := dst[..];
    var offset := 1 + inputLen / 4;
    if offset > dst.Length {
      offset := dst.Length;
    }
    var thirdLen := inputLen % 4;
    if offset + thirdLen > dst.Length {
      thirdLen := dst.Length - offset;
    }
    Fill(dst, offset, thirdLen, ByteOf((inputLen + 1) * 8 % 256));
    ThreeFills(s0, s1, s2, dst[..], inputLen);
  }

  // ---------------------------------------------------------------- resources

  function Words(data: seq<byte>): seq<uint32> {
    seq(|data| / 4, i requires 0 <= i < |data| / 4 => Uint32(data[4 * i..4 * i + 4]))
  }

  method BytesToUint32(data: seq<byte>) returns (vals: seq<uint32>, err: Option<CompressError>)
    ensures err == if |data| % 4 != 0 then Some(MalformedResource) else None
    ensures err == None ==> vals == Words(data)
  {
    vals := [];
    if |data| % 4 != 0 {
      return [], Some(MalformedResource);
    }
    for i := 0 to |data| / 4
      invariant vals == Words(data)[..i]
    {
      vals := vals + [Uint32(data[i * 4..i * 4 + 4])];
    }
    err := None;
  }

  /** The table index a file word points to; the first word points to entry one. */
  function PointerOffset(words: seq<uint32>, entry: uint32): nat
    requires words != []
  {
    var base := (words[0] - 4) % TWO_TO_THE_32;
    (entry - base) % TWO_TO_THE_32 / 4
  }

  function EntryOf(words: seq<uint32>, entry: uint32): JumpEntry
    requires words != []
  {
    if entry > 0xFF then JumpEntry(Some(PointerOffset(words, entry)), 0, false)
      else JumpEntry(None, ByteOf(entry), true)
  }

  predicate PointersInRange(words: seq<uint32>)
    requires words != []
  {
    forall i :: 0 <= i < |words| && words[i] > 0xFF ==> PointerOffset(words, words[i]) < |words|
  }

  function JumpTableOf(words: seq<uint32>): (table: JumpTable)
    requires words != []
    ensures |table| == |words|
    ensures forall i :: 0 <= i < |words| ==> table[i] == EntryOf(words, words[i])
  {
    seq(|words|, i requires 0 <= i < |words| => EntryOf(words, words[i]))
  }

  /** The words of a resource are its bytes, four at a time. */
  lemma WordsAreBytes(data: seq<byte>, i: nat)
    requires i < |data| / 4
    ensures |Words(data)| == |data| / 4 && PutUint32(Words(data)[i]) == data[4 * i..4 * i + 4]
  {
    hide PutUint32, Uint32;
    PutUint32OfBytes(data[4 * i..4 * i + 4]);
  }

  /** A word up to 255 is a value; any other points four bytes to the entry, the first word to entry one. */
  lemma EntryMeaning(words: seq<uint32>, entry: uint32)
    requires words != []
    ensures var e := EntryOf(words, entry);
            if entry <= 255 then e.ptr.None? && e.hasValue && e.value as int == entry
            else
              && e.ptr.Some? && !e.hasValue
              && (words[0] >= 4 && entry >= words[0] - 4 ==> e.ptr.value == (entry - (words[0] - 4)) / 4)
              && (words[0] >= 4 && entry < words[0] - 4 ==> e.ptr.value == (entry - (words[0] - 4) + 0x1_0000_0000) / 4)
  {
  }

  /** Whatever the base the file was dumped at, the first word denotes entry one. */
  lemma RootIsEntryOne(words: seq<uint32>)
    requires words != []
    ensures PointerOffset(words, words[0]) == 1
  {
    var base := (words[0] - 4) % TWO_TO_THE_32;
    if words[0] >= 4 {
      assert base == words[0] - 4;
    } else {
      assert base == words[0] - 4 + TWO_TO_THE_32;
      assert (words[0] - base) % TWO_TO_THE_32 == 4;
    }
  }

  // ---------------------------------------------------------------- one step of the encoder

  lemma CodeIsPattern(enc: EncodeTable, b: byte)
    requires HasCode(enc, b)
    ensures Code(enc, b) == BitsOf(PutUint32(CodePattern(enc, b)))[..CodeLength(enc, b)]
  {
  }

  /** `now` is `before` with the codes of the first `k` bytes of `src` laid over it. */
  ghost predicate Encoded(enc: EncodeTable, src: seq<byte>, k: nat, before: seq<byte>, now: seq<byte>) {
    && k <= |src| && Encodable(enc, src[..k]) && |before| > 0
    && |CodeString(enc, src[..k])| <= 8 * (|before| - 1)
    && now == WriteBits(before, CodeString(enc, src[..k]))
  }

  lemma EncodedStart(enc: EncodeTable, src: seq<byte>, before: seq<byte>)
    requires |before| > 0
    ensures Encodable(enc, src[..0]) && Encoded(enc, src, 0, before, before)
    ensures |CodeString(enc, src[..0])| == 0
  {
    EmptyCodeString(enc, src);
    WriteBitsUnique(before, [], before);
  }

  lemma EncodedNext(enc: EncodeTable, src: seq<byte>, k: nat, before: seq<byte>, now: seq<byte>, after: seq<byte>)
    requires k < |src| && Encoded(enc, src, k, before, now) && HasCode(enc, src[k])
    requires |CodeString(enc, src[..k])| + CodeLength(enc, src[k]) <= 8 * (|before| - 1)
    requires |after| == |now| && after[0] == now[0]
    requires BitsOf(after[1..]) == Overwrite(BitsOf(now[1..]), |CodeString(enc, src[..k])|, Code(enc, src[k]))
    ensures Encodable(enc, src[..k + 1]) && Encoded(enc, src, k + 1, before, after)
    ensures |CodeString(enc, src[..k + 1])| == |CodeString(enc, src[..k])| + CodeLength(enc, src[k])
  {
    hide CodeString, Code, BitsOf, WriteBits;
    CodeStringNext(enc, src, k);
    LaidOver(before, now, after, CodeString(enc, src[..k]), Code(enc, src[k]));
  }

  /** Bits laid over a buffer behind others already laid there. */
  lemma LaidOver(before: seq<byte>, now: seq<byte>, after: seq<byte>, bits: seq<bool>, patch: seq<bool>)
    requires |before| > 0 && |bits| + |patch| <= 8 * (|before| - 1) && now == WriteBits(before, bits)
    requires |after| == |now| && after[0] == now[0]
    requires BitsOf(after[1..]) == Overwrite(BitsOf(now[1..]), |bits|, patch)
    ensures after == WriteBits(before, bits + patch)
  {
    hide BitsOf, WriteBits;
    var old0, now0 := BitsOf(before[1..]), BitsOf(now[1..]);
    assert now0 == bits + old0[|bits|..];
    assert now0[..|bits|] == bits;
    assert now0[|bits| + |patch|..] == old0[|bits| + |patch|..];
    WriteBitsUnique(before, bits + patch, after);
  }

  /** What the scan's verdict means for the call. */
  lemma OutcomeOf(enc: EncodeTable, src: seq<byte>, before: seq<byte>, k: nat, image: seq<byte>)
    requires 0 < |before| <= MAX_BUFFER && k <= |src| && Encoded(enc, src, k, before, image)
    ensures match ScanFrom(enc, src, 0, 0, 8 * (|before| - 1))
            case Fits(total) => k == |src| ==>
              CompressInto(enc, src, before) == Compressed(total + 8, None, image[0 := 1])
            case Unknown(at) => at == k ==>
              CompressInto(enc, src, before) == Compressed(0, Some(IndexOutOfRange(src[k])), image)
            case TooWide(at) => at == k ==> CompressInto(enc, src, before) == Compressed(0, Some(PatternTooWide), image)
            case Breaks(at) => at == k && InTable(enc, src[k]) ==>
              CompressInto(enc, src, before) ==
              Compressed(0, Some(IndexPanic),
                         WriteBits(before, CodeString(enc, src[..k]) + Stray(enc, src, k, 8 * (|before| - 1))))
            case NoRoom(at, needed) => at == k ==>
              CompressInto(enc, src, before) ==
              if |src| + 1 >= |before| then Compressed(|src| % TWO_TO_THE_32, None, Stamped(image, |src|))
              else Compressed(0, Some(InsufficientSpace(needed, 8 * (|before| - 1))), image)
  {
    hide CodeString, Code, BitsOf, WriteBits, Stamped;
    assert src[..|src|] == src;
  }

  /** What the writer makes of a length that passed the encoder's own check for room. */
  lemma WriterVerdict(read: uint32, elem: uint32, room: nat)
    requires read <= 8 * MAX_BUFFER && room <= MAX_BUFFER && Add32(elem, read) < 8 * room
    ensures CompressedSize(elem) > 4 <==> 32 < elem < WRAPPING_LENGTH
    ensures CompressedSize(Add32(read, elem)) <= room
  {
  }

  /** Where the writer broke off, the codes before and the stray bits are all that was written. */
  lemma StrayWritten(enc: EncodeTable, src: seq<byte>, before: seq<byte>, k: nat, now: seq<byte>, after: seq<byte>)
    requires k < |src| && Encoded(enc, src, k, before, now) && InTable(enc, src[k])
    requires |after| == |now| && after[0] == now[0]
    requires BitsOf(after[1..])
      == Overwrite(BitsOf(now[1..]), |CodeString(enc, src[..k])|, Stray(enc, src, k, 8 * (|before| - 1)))
    ensures after == WriteBits(before, CodeString(enc, src[..k]) + Stray(enc, src, k, 8 * (|before| - 1)))
  {
    hide CodeString, Code, BitsOf, WriteBits;
    LaidOver(before, now, after, CodeString(enc, src[..k]), Stray(enc, src, k, 8 * (|before| - 1)));
  }

  /** What the whole walk yields when `out` is already written and `rest` is what remains. */
  ghost function After(out: seq<byte>, rest: Decoded): Decoded {
    Decoded(out + rest.out, rest.err)
  }

  lemma AfterNext(out: seq<byte>, v: byte, rest: Decoded)
    ensures After(out, Decoded([v] + rest.out, rest.err)) == After(out + [v], rest)
    ensures After([], rest) == rest
    ensures rest.out == [] ==> After(out, rest).out == out
  {
    assert out + ([v] + rest.out) == out + [v] + rest.out;
  }

  lemma AfterNothing(out: seq<byte>, err: Option<DecompressError>)
    ensures After(out, Decoded([], err)) == Decoded(out, err)
  {
  }

  // ---------------------------------------------------------------- the codec object

  class FFXICodec {
    var initErr: Option<CompressError>
    var encTable: EncodeTable
    var jumpTable: array<JumpEntry>
    var jumpRoot: Option<nat>

    /** Loads both tables; an absent argument is a resource that cannot be read. */
    constructor (compressData: Option<seq<byte>>, decompressData: Option<seq<byte>>)
      ensures fresh(jumpTable)
      ensures initErr == None ==>
        && compressData.Some? && encTable == Words(compressData.value)
        && decompressData.Some? && Words(decompressData.value) != []
        && jumpTable[..] == JumpTableOf(Words(decompressData.value))
        && jumpRoot == Some(1) && jumpTable.Length > 1
      ensures initErr == None <==>
        && compressData.Some? && |compressData.value| % 4 == 0
        && decompressData.Some? && |decompressData.value| % 4 == 0
        && var words := Words(decompressData.value);
           words != [] && words[0] > 0xFF && PointersInRange(words)
    {
      initErr := None;
      encTable := [];
      jumpTable := new JumpEntry[0];
      jumpRoot := None;
      new;
      if compressData.None? || decompressData.None? {
        initErr := Some(ResourceMissing);
        return;
      }
      var words, err := BytesToUint32(compressData.value);
      initErr := err;
      if err != None {
        return;
      }
      encTable := words;
      words, err := BytesToUint32(decompressData.value);
      initErr := err;
      if err != None {
        return;
      }
      err := PopulateJumpTable(words);
      initErr := err;
    }

    /** Turns file words into jump entries; on success the root is entry one. */
    method PopulateJumpTable(dec: seq<uint32>) returns (err: Option<CompressError>)
      modifies this`jumpTable, this`jumpRoot
      ensures fresh(jumpTable) || jumpTable == old(jumpTable)
      ensures err == if dec == [] then Some(EmptyTable)
                     else if !PointersInRange(dec) then Some(PointerOutOfRange)
                     else if dec[0] <= 0xFF then Some(NoRootPointer)
                     else None
      ensures err == None ==> jumpTable[..] == JumpTableOf(dec) && jumpRoot == Some(1) && jumpTable.Length > 1
      ensures err != None ==> jumpRoot == old(jumpRoot)
    {
      if |dec| == 0 {
        return Some(EmptyTable);
      }
      jumpTable := new JumpEntry[|dec|](_ => BLANK);
      var base := (dec[0] - 4) % TWO_TO_THE_32;
      for i := 0 to |dec|
        invariant fresh(jumpTable) && jumpTable.Length == |dec|
        invariant jumpRoot == old(jumpRoot)
        invariant forall j :: i <= j < |dec| ==> jumpTable[j] == BLANK
        invariant forall j :: 0 <= j < i ==> jumpTable[j] == EntryOf(dec, dec[j])
        invariant forall j :: 0 <= j < i && dec[j] > 0xFF ==> PointerOffset(dec, dec[j]) < |dec|
      {
        var entry := dec[i];
        if entry > 0xFF {
          var offset := (entry - base) % TWO_TO_THE_32 / 4;
          if offset >= jumpTable.Length {
            return Some(PointerOutOfRange);
          }
          jumpTable[i] := JumpEntry(Some(offset), jumpTable[i].value, false);
        } else {
          jumpTable[i] := JumpEntry(None, ByteOf(entry), true);
        }
      }
      assert jumpTable[..] == JumpTableOf(dec);
      var root := jumpTable[0].ptr;
      if root == None {
        return Some(NoRootPointer);
      }
      RootIsEntryOne(dec);
      jumpRoot := root;
      return None;
    }

    /** Compresses `src` into `dst`. */
    method Compress(src: seq<byte>, dst: array<byte>) returns (bits: uint32, err: Option<CompressError>)
      requires dst.Length <= MAX_BUFFER
      modifies dst
      ensures initErr != None ==> bits == 0 && err == initErr && dst[..] == old(dst[..])
      ensures initErr == None && dst.Length == 0 ==> bits == 0 && err == Some(EmptyDestination)
      ensures initErr == None && dst.Length > 0 ==>
        Compressed(bits, err, dst[..]) == CompressInto(encTable, src, old(dst[..]))
    {
      hide CodeString, Code, BitOf, BitsOf, PutUint32, WriteBits, Stamped, ScanFrom, Overwrite, Encoded, CompressInto,
        CompressedSize;
      var enc := encTable;
      if initErr != None {
        return 0, initErr;
      }
      if dst.Length == 0 {
        return 0, Some(EmptyDestination);
      }
      var read: uint32 := 0;
      var maxBits: uint32 := (dst.Length - 1) * 8;
      ghost var before := dst[..];
      EncodedStart(enc, src, before);
      for k := 0 to |src|
        invariant Encodable(enc, src[..k]) && Encoded(enc, src, k, before, dst[..])
        invariant read == |CodeString(enc, src[..k])| && (read == 0 || read < maxBits)
        invariant ScanFrom(enc, src, 0, 0, maxBits) == ScanFrom(enc, src, k, read, maxBits)
      {
        var b := src[k];
        ScanStep(enc, src, k, read, maxBits);
        ghost var image := dst[..];
        OutcomeOf(enc, src, before, k, image);
        if !InTable(enc, b) {
          return 0, Some(IndexOutOfRange(b));
        }
        var elem := enc[Signed(b) + 0x180];
        if Add32(elem, read) >= maxBits {
          if |src| + 1 >= dst.Length {
            FillOverflowOutput(dst, |src|);
            return |src| % TWO_TO_THE_32, None;
          }
          return 0, Some(InsufficientSpace(Add32(elem, read), maxBits));
        }
        var bitPattern := PutUint32(enc[Signed(b) + 0x80]);
        WriterVerdict(read, elem, dst.Length - 1);
        err := CompressSub(bitPattern, read, elem, dst, 1);
        if err != None {
          if err == Some(IndexPanic) {
            StrayWritten(enc, src, before, k, image, dst[..]);
          }
          return 0, err;
        }
        CodeIsPattern(enc, b);
        EncodedNext(enc, src, k, before, image, dst[..]);
        read := read + elem;
      }
      ScanEnds(enc, src, read, maxBits);
      OutcomeOf(enc, src, before, |src|, dst[..]);
      dst[0] := 1;
      return read + 8, None;
    }

    /** Whether the walk of this codec's table never leaves it. */
    ghost predicate Walkable()
      reads this, jumpTable
    {
      SafeTable(jumpTable[..]) && (jumpRoot.Some? ==> NodeInTable(jumpTable[..], jumpRoot.value))
    }

    /** Follows one bit from `node`: `Inner` and `Emit` are the walk's two ways on. */
    method Follow(node: nat, bit: byte) returns (move: Move)
      requires SafeTable(jumpTable[..]) && NodeInTable(jumpTable[..], node) && bit <= 1
      ensures move == MoveOn(jumpTable[..], node, bit == 1)
      ensures move.Inner? ==> NodeInTable(jumpTable[..], move.node)
    {
      assert bit == 0 || bit == 1;
      var child := jumpTable[node + bit as int];
      if child.ptr == None {
        return Dead;
      }
      var next := child.ptr.value;
      assert NodeInTable(jumpTable[..], next);
      if jumpTable[next].ptr != None || jumpTable[next + 1].ptr != None {
        return Inner(next);
      }
      var valueEntry := jumpTable[next + 3];
      if !valueEntry.hasValue {
        return Hollow;
      }
      return Emit(valueEntry.value);
    }

    /** The loop of `Decompress`, entered once its checks have passed. */
    method Expand(root: nat, data: seq<byte>, bitCount: uint32, dst: array<byte>)
      returns (written: nat, err: Option<DecompressError>)
      requires SafeTable(jumpTable[..]) && NodeInTable(jumpTable[..], root) && dst != (jumpTable as object)
      modifies dst
      ensures var available := Min(bitCount, 8 * |data|);
              var d := DecodeBits(jumpTable[..], root, root, BitsOf(data)[..available], dst.Length,
                                  available < bitCount);
              && err == d.err
              && written == (if d.err == None then |d.out| else 0)
              && dst[..|d.out|] == d.out && dst[|d.out|..] == old(dst[|d.out|..])
    {
      hide DecodeBits, BitAt, BitOf, BitsOf, After, MoveOn, SafeTable, NodeInTable;
      written := 0;
      var jmp := root;
      ghost var table, before := jumpTable[..], dst[..];
      ghost var bits := BitsOf(data)[..Min(bitCount, 8 * |data|)];
      ghost var short := |bits| < bitCount;
      ghost var whole := DecodeBits(table, root, root, bits, dst.Length, short);
      ghost var out: seq<byte> := [];
      var i := 0;
      assert bits[0..] == bits;
      AfterNext([], 0, whole);
      while i < bitCount && written < dst.Length
        invariant 0 <= i <= |bits| && written == |out| <= dst.Length
        invariant jumpTable[..] == table && NodeInTable(table, jmp)
        invariant dst[..written] == out && dst[written..] == before[written..]
        invariant whole == After(out, DecodeBits(table, root, jmp, bits[i..], dst.Length - written, short))
        decreases bitCount - i
      {
        var byteIndex := i / 8;
        if byteIndex >= |data| {
          DecodeEnds(table, root, jmp, bits[i..], dst.Length - written, short);
          AfterNothing(out, Some(DataExhausted));
          return 0, Some(DataExhausted);
        }
        DecodeStep(table, root, jmp, bits, i, dst.Length - written, short);
        BitsOfAt(data, i);
        var move := Follow(jmp, BitAt(data[byteIndex], i % 8));
        i := i + 1;
        match move
        case Dead =>
          AfterNothing(out, Some(InvalidPointer));
          return 0, Some(InvalidPointer);
        case Hollow =>
          AfterNothing(out, Some(InvalidValue));
          return 0, Some(InvalidValue);
        case Inner(next) =>
          jmp := next;
        case Emit(v) =>
          AfterNext(out, v, DecodeBits(table, root, root, bits[i..], dst.Length - written - 1, short));
          ghost var tail := dst[written..];
          dst[written] := v;
          out := out + [v];
          written := written + 1;
          assert dst[written..] == tail[1..] == before[written..];
          jmp := root;
      }
      DecodeEnds(table, root, jmp, bits[i..], dst.Length - written, short);
      AfterNothing(out, None);
      return written, None;
    }

    /** Expands `input` into `dst`, writing only what it decodes. */
    method Decompress(input: seq<byte>, bitCount: uint32, dst: array<byte>)
      returns (written: nat, err: Option<DecompressError>)
      requires Walkable() && dst != (jumpTable as object)
      modifies dst
      ensures initErr != None ==> written == 0 && err == Some(Uninitialized) && dst[..] == old(dst[..])
      ensures initErr == None ==>
        var d := CodecSpec.Decompress(jumpTable[..], jumpRoot, input, bitCount, dst.Length);
        && err == d.err
        && written == (if d.err == None then |d.out| else 0)
        && dst[..|d.out|] == d.out && dst[|d.out|..] == old(dst[|d.out|..])
    {
      hide DecodeBits, BitOf, BitsOf, SafeTable, NodeInTable;
      if initErr != None {
        return 0, Some(Uninitialized);
      }
      if |input| == 0 {
        return 0, Some(EmptyInput);
      }
      if bitCount == 0 {
        return 0, Some(ZeroBits);
      }
      if input[0] != 1 {
        return 0, Some(BadHeader);
      }
      if jumpRoot == None {
        return 0, Some(NoJumpTable);
      }
      if |input| * 8 % TWO_TO_THE_32 < bitCount {
        return 0, Some(InputTooShort);
      }
      written, err := Expand(jumpRoot.value, input[1..], bitCount, dst);
    }
  }

  /**
   The two methods back to back, over buffers holding anything: the text comes
   back, and nothing behind it is touched.
   */
  method RoundTripThroughBuffers(codec: FFXICodec, src: seq<byte>, packed: array<byte>, dst: array<byte>)
    requires codec.initErr == None && codec.jumpRoot.Some? && codec.Walkable()
    requires 0 < packed.Length <= MAX_BUFFER && packed != dst
    requires packed != (codec.jumpTable as object) && dst != (codec.jumpTable as object)
    requires src != [] && |src| <= dst.Length
    requires AgreesOn(codec.encTable, codec.jumpTable[..], codec.jumpRoot.value, src)
    requires |CodeString(codec.encTable, src)| < 8 * (packed.Length - 1)
    modifies packed, dst
    ensures dst[..|src|] == src && dst[|src|..] == old(dst[|src|..])
  {
    hide CompressInto, CodeString, Code, Reaches, CodecSpec.Decompress, SafeTable, NodeInTable;
    ghost var enc, table, root, before := codec.encTable, codec.jumpTable[..], codec.jumpRoot.value, packed[..];
    AgreementHasCodes(enc, table, root, src);
    CompressOutcome(enc, src, before);
    var bits, err := codec.Compress(src, packed);
    assert codec.Walkable();
    NormalImage(enc, src, before);
    var len := BytesFor(bits);
    RoundTrip(enc, table, root, src, before, len, bits - 8, dst.Length);
    assert CodecSpec.Decompress(table, Some(root), packed[..len], bits - 8, dst.Length) == Decoded(src, None);
    var written, failed := codec.Decompress(packed[..len], bits - 8, dst);
  }

  // ---------------------------------------------------------------- the smallest tables that agree

  const TWO_SYMBOLS: seq<uint32> := [0x404, 0x414, 0x424, 0, 0, 0, 0, 0, 0x41, 0, 0, 0, 0x42]

  /** One bit each for `A` and `B`. */
  function TwoSymbolCodes(): EncodeTable {
    seq(0x200, i requires 0 <= i < 0x200 => if i == 0x80 + 0x42 || i == 0x180 + 0x41 || i == 0x180 + 0x42 then 1 else 0)
  }

  /** What the theorems ask of a pair of tables can be had. */
  lemma TwoSymbolsAgree()
    ensures PointersInRange(TWO_SYMBOLS) && SafeTable(JumpTableOf(TWO_SYMBOLS))
      && NodeInTable(JumpTableOf(TWO_SYMBOLS), 1)
    ensures Agrees(TwoSymbolCodes(), JumpTableOf(TWO_SYMBOLS), 1, 0x41)
      && Agrees(TwoSymbolCodes(), JumpTableOf(TWO_SYMBOLS), 1, 0x42)
  {
    hide Code, EntryOf, MoveOn, NodeInTable;
    var table, enc := JumpTableOf(TWO_SYMBOLS), TwoSymbolCodes();
    TwoSymbolWalk();
    assert Signed(0x41) == 0x41 && Signed(0x42) == 0x42;
    OneBitCode(enc, 0x41, 0);
    OneBitCode(enc, 0x42, 1);
  }

  lemma TwoSymbolEntries()
    ensures PointersInRange(TWO_SYMBOLS)
    ensures forall i :: 0 <= i < 13 ==>
      EntryOf(TWO_SYMBOLS, TWO_SYMBOLS[i]) == if i == 0 then JumpEntry(Some(1), 0, false)
                                              else if i == 1 then JumpEntry(Some(5), 0, false)
                                              else if i == 2 then JumpEntry(Some(9), 0, false)
                                              else JumpEntry(None, ByteOf(TWO_SYMBOLS[i]), true)
  {
    assert PointerOffset(TWO_SYMBOLS, 0x404) == 1 && PointerOffset(TWO_SYMBOLS, 0x414) == 5
      && PointerOffset(TWO_SYMBOLS, 0x424) == 9;
  }

  lemma TwoSymbolWalk()
    ensures var table := JumpTableOf(TWO_SYMBOLS);
            && PointersInRange(TWO_SYMBOLS) && SafeTable(table) && NodeInTable(table, 1)
            && MoveOn(table, 1, false) == Emit(0x41) && MoveOn(table, 1, true) == Emit(0x42)
  {
    hide EntryOf, PointersInRange;
    TwoSymbolEntries();
    ByteOfValue(0x41);
    ByteOfValue(0x42);
  }

  lemma OneBitCode(enc: EncodeTable, b: byte, bit: uint32)
    requires HasCode(enc, b) && CodeLength(enc, b) == 1 && CodePattern(enc, b) == bit < 2
    ensures Code(enc, b) == [bit == 1]
  {
    var first := PutUint32(bit)[0];
    assert first as int == bit;
    assert BitOf(first, 0) == (bit == 1) by {
      ByteOfValue(first);
      assert ByteOf(0) == 0 && ByteOf(1) == 1;
    }
  }
}
