/**
 What the FFXI bit codec means: the code table, the compressed image, the walk
 of the jump table, and the theorems that relate them.
 */
module CodecSpec {
  import opened Bytes

  /** Buffers of at most this many bytes keep every uint32 bit count from wrapping. */
  const MAX_BUFFER := 0x1000_0000

  type EncodeTable = seq<uint32>

  // ---------------------------------------------------------------- codes

  /** `int(int8(b))`. */
  function Signed(b: byte): (i: int)
    ensures -128 <= i < 128
  {
    if b as int < 128 then b as int else b as int - 256
  }

  predicate InTable(enc: EncodeTable, b: byte) {
    Signed(b) + 0x180 < |enc| && Signed(b) + 0x80 < |enc|
  }

  function CodeLength(enc: EncodeTable, b: byte): uint32
    requires InTable(enc, b)
  {
    enc[Signed(b) + 0x180]
  }

  function CodePattern(enc: EncodeTable, b: byte): uint32
    requires InTable(enc, b)
  {
    enc[Signed(b) + 0x80]
  }

  predicate HasCode(enc: EncodeTable, b: byte) {
    InTable(enc, b) && CodeLength(enc, b) <= 32
  }

  /** The code of a byte: the low `CodeLength` bits of its pattern, least significant first. */
  function Code(enc: EncodeTable, b: byte): (code: seq<bool>)
    requires HasCode(enc, b)
    ensures |code| == CodeLength(enc, b)
  {
    BitsOf(PutUint32(CodePattern(enc, b)))[..CodeLength(enc, b)]
  }

  predicate Encodable(enc: EncodeTable, src: seq<byte>) {
    forall i :: 0 <= i < |src| ==> HasCode(enc, src[i])
  }

  function CodeString(enc: EncodeTable, src: seq<byte>): seq<bool>
    requires Encodable(enc, src)
  {
    if src == [] then [] else Code(enc, src[0]) + CodeString(enc, src[1..])
  }

  lemma {:induction false} CodeStringConcat(enc: EncodeTable, a: seq<byte>, b: seq<byte>)
    requires Encodable(enc, a) && Encodable(enc, b)
    ensures Encodable(enc, a + b)
    ensures CodeString(enc, a + b) == CodeString(enc, a) + CodeString(enc, b)
  {
    hide Code;
    if a == [] {
      assert a + b == b;
    } else {
      CodeStringConcat(enc, a[1..], b);
      assert (a + b)[1..] == a[1..] + b;
    }
  }

  lemma EmptyCodeString(enc: EncodeTable, src: seq<byte>)
    ensures Encodable(enc, src[..0]) && CodeString(enc, src[..0]) == []
  {
  }

  lemma CodeStringNext(enc: EncodeTable, src: seq<byte>, k: nat)
    requires k < |src| && Encodable(enc, src[..k]) && HasCode(enc, src[k])
    ensures Encodable(enc, src[..k + 1])
    ensures CodeString(enc, src[..k + 1]) == CodeString(enc, src[..k]) + Code(enc, src[k])
  {
    hide Code;
    CodeStringConcat(enc, src[..k], [src[k]]);
    assert src[..k + 1] == src[..k] + [src[k]];
    assert CodeString(enc, [src[k]]) == Code(enc, src[k]);
  }

  lemma {:induction false} CodeStringBound(enc: EncodeTable, src: seq<byte>, width: nat)
    requires Encodable(enc, src)
    requires forall i :: 0 <= i < |src| ==> CodeLength(enc, src[i]) <= width
    ensures |CodeString(enc, src)| <= width * |src|
  {
    hide Code;
    if src != [] {
      CodeStringBound(enc, src[1..], width);
      assert width * |src| == width + width * |src[1..]|;
    }
  }

  // ---------------------------------------------------------------- the bit writer

  /** `before` with the bits after its first byte overwritten by `bits`. */
  function WriteBits(before: seq<byte>, bits: seq<bool>): (after: seq<byte>)
    requires |before| > 0 && |bits| <= 8 * (|before| - 1)
    ensures |after| == |before|
    ensures after[0] == before[0]
    ensures BitsOf(after[1..]) == bits + BitsOf(before[1..])[|bits|..]
  {
    [before[0]] + PackBits(bits + BitsOf(before[1..])[|bits|..])
  }

  lemma WriteBitsUnique(before: seq<byte>, bits: seq<bool>, after: seq<byte>)
    requires |before| > 0 && |bits| <= 8 * (|before| - 1)
    requires |after| == |before| && after[0] == before[0]
    requires BitsOf(after[1..]) == bits + BitsOf(before[1..])[|bits|..]
    ensures after == WriteBits(before, bits)
  {
    BitsOfInjective(after[1..], WriteBits(before, bits)[1..]);
    assert after == [after[0]] + after[1..];
    assert WriteBits(before, bits) == [before[0]] + WriteBits(before, bits)[1..];
  }

  // ---------------------------------------------------------------- compression

  datatype CompressError =
    | ResourceMissing
    | MalformedResource
    | EmptyTable
    | PointerOutOfRange
    | NoRootPointer
    | EmptyDestination
    | IndexOutOfRange(symbol: byte)
    | InsufficientSpace(needed: nat, available: nat)
    | PatternTooWide
    | OutputExceeded
    | IndexPanic     // not an error value: the call stops on an index out of range

  /** The bits counted so far, in the uint32 arithmetic of the program. */
  function Add32(a: uint32, b: uint32): uint32 {
    (a + b) % TWO_TO_THE_32
  }

  /** Where the encoder's pass over the input ends, and why. */
  datatype Scan =
    | Fits(total: nat)
    | Unknown(at: nat)
    | NoRoom(at: nat, needed: uint32)
    | TooWide(at: nat)
    | Breaks(at: nat)

  /** From this length word on, rounding up to bytes wraps around and the writer's own width check passes. */
  const WRAPPING_LENGTH := 0xFFFF_FFF9

  function ScanFrom(enc: EncodeTable, src: seq<byte>, k: nat, read: uint32, maxBits: nat): (r: Scan)
    requires k <= |src|
    ensures !r.Fits? ==> k <= r.at < |src|
    decreases |src| - k
  {
    if k == |src| then Fits(read)
    else if !InTable(enc, src[k]) then Unknown(k)
    else
      var elem := CodeLength(enc, src[k]);
      if Add32(elem, read) >= maxBits then NoRoom(k, Add32(elem, read))
      else if elem >= WRAPPING_LENGTH then Breaks(k)
      else if elem > 32 then TooWide(k)
      else ScanFrom(enc, src, k + 1, Add32(elem, read), maxBits)
  }

  datatype Compressed = Compressed(bits: uint32, err: Option<CompressError>, image: seq<byte>)

  /** The three regions the fallback stamps over a buffer, each clamped to it. */
  function Stamped(image: seq<byte>, inputLen: nat): (r: seq<byte>)
    requires |image| > 0
    ensures |r| == |image|
  {
    var zeroLen := Min(|image| / 4 + inputLen % 4, |image|);
    var secondLen := Min(inputLen / 4, |image| - 1);
    var offset := Min(1 + inputLen / 4, |image|);
    var thirdLen := Min(inputLen % 4, |image| - offset);
    seq(|image|, j requires 0 <= j < |image| =>
      if offset <= j < offset + thirdLen then ByteOf((inputLen + 1) * 8 % 256)
      else if 1 <= j < 1 + secondLen then ByteOf(inputLen % 256)
      else if j < zeroLen then 0
      else image[j])
  }

  function Min(a: int, b: int): int {
    if a < b then a else b
  }

  /** The bits of the offending pattern that are written before the index runs out of the pattern or of the buffer. */
  function Stray(enc: EncodeTable, src: seq<byte>, at: nat, maxBits: nat): (bits: seq<bool>)
    requires at < |src| && InTable(enc, src[at])
    requires Encodable(enc, src[..at]) && |CodeString(enc, src[..at])| <= maxBits
    ensures |CodeString(enc, src[..at])| + |bits| <= maxBits
  {
    BitsOf(PutUint32(CodePattern(enc, src[at])))[..Min(32, maxBits - |CodeString(enc, src[..at])|)]
  }

  /** The scan stops at a pattern only where there is one. */
  lemma {:induction false} ScanReads(enc: EncodeTable, src: seq<byte>, k: nat, read: uint32, maxBits: nat)
    requires k <= |src|
    ensures var scan := ScanFrom(enc, src, k, read, maxBits);
            scan.Breaks? || scan.TooWide? || scan.NoRoom? ==> InTable(enc, src[scan.at])
    decreases |src| - k
  {
    if k < |src| && InTable(enc, src[k]) {
      ScanReads(enc, src, k + 1, Add32(CodeLength(enc, src[k]), read), maxBits);
    }
  }

  /** What compressing `src` into a buffer holding `before` returns and leaves. */
  function CompressInto(enc: EncodeTable, src: seq<byte>, before: seq<byte>): (r: Compressed)
    requires 0 < |before| <= MAX_BUFFER
  {
    var maxBits := 8 * (|before| - 1);
    ScanIsWithin(enc, src, 0, maxBits);
    var scan := ScanFrom(enc, src, 0, 0, maxBits);
    assert src[0..] == src;
    if scan.Fits? then
      Compressed(scan.total + 8, None, WriteBits(before, CodeString(enc, src))[0 := 1])
    else
      var image := WriteBits(before, CodeString(enc, src[..scan.at]));
      match scan
      case Unknown(at) => Compressed(0, Some(IndexOutOfRange(src[at])), image)
      case TooWide(at) => Compressed(0, Some(PatternTooWide), image)
      case Breaks(at) =>
        ScanReads(enc, src, 0, 0, maxBits);
        Compressed(0, Some(IndexPanic), WriteBits(before, CodeString(enc, src[..at]) + Stray(enc, src, at, maxBits)))
      case NoRoom(at, needed) =>
        if |src| + 1 >= |before| then Compressed(|src| % TWO_TO_THE_32, None, Stamped(image, |src|))
        else Compressed(0, Some(InsufficientSpace(needed, maxBits)), image)
  }

  /** The scan counts exactly the code bits, and they always fit the buffer. */
  lemma {:induction false} ScanIsWithin(enc: EncodeTable, src: seq<byte>, k: nat, maxBits: nat)
    requires k <= |src| && Encodable(enc, src[..k])
    requires maxBits < 8 * MAX_BUFFER
    requires k == 0 || |CodeString(enc, src[..k])| < maxBits
    ensures var scan := ScanFrom(enc, src, k, |CodeString(enc, src[..k])|, maxBits);
            if scan.Fits? then Encodable(enc, src) && scan.total == |CodeString(enc, src)| <= maxBits
            else k <= scan.at < |src| && Encodable(enc, src[..scan.at]) && |CodeString(enc, src[..scan.at])| <= maxBits
    decreases |src| - k
  {
    hide Code, ScanFrom;
    if k == |src| {
      assert src[..k] == src;
      ScanEnds(enc, src, |CodeString(enc, src)|, maxBits);
    } else {
      ScanStep(enc, src, k, |CodeString(enc, src[..k])|, maxBits);
      if HasCode(enc, src[k]) && |CodeString(enc, src[..k])| + CodeLength(enc, src[k]) < maxBits {
        CodeStringNext(enc, src, k);
        ScanIsWithin(enc, src, k + 1, maxBits);
      }
    }
  }

  lemma ScanEnds(enc: EncodeTable, src: seq<byte>, read: uint32, maxBits: nat)
    ensures ScanFrom(enc, src, |src|, read, maxBits) == Fits(read)
  {
  }

  lemma ScanStep(enc: EncodeTable, src: seq<byte>, k: nat, read: uint32, maxBits: nat)
    requires k < |src| && read < 8 * MAX_BUFFER
    ensures ScanFrom(enc, src, k, read, maxBits) ==
            if !InTable(enc, src[k]) then Unknown(k)
            else if Add32(CodeLength(enc, src[k]), read) >= maxBits then NoRoom(k, Add32(CodeLength(enc, src[k]), read))
            else if CodeLength(enc, src[k]) >= WRAPPING_LENGTH then Breaks(k)
            else if CodeLength(enc, src[k]) > 32 then TooWide(k)
            else ScanFrom(enc, src, k + 1, read + CodeLength(enc, src[k]), maxBits)
    ensures HasCode(enc, src[k]) ==> Add32(CodeLength(enc, src[k]), read) == read + CodeLength(enc, src[k])
  {
  }

  /** With valid lengths the outcome of the scan is a matter of arithmetic. */
  lemma {:induction false} ScanByArithmetic(enc: EncodeTable, src: seq<byte>, k: nat, maxBits: nat)
    requires k <= |src| && Encodable(enc, src)
    requires maxBits < 8 * MAX_BUFFER
    requires k == 0 || |CodeString(enc, src[..k])| < maxBits
    ensures var scan := ScanFrom(enc, src, k, |CodeString(enc, src[..k])|, maxBits);
            if k == |src| || |CodeString(enc, src)| < maxBits then scan == Fits(|CodeString(enc, src)|)
              else scan.NoRoom?
    decreases |src| - k
  {
    hide Code;
    if k == |src| {
      assert src[..k] == src;
    } else {
      assert HasCode(enc, src[k]);
      CodeStringNext(enc, src, k);
      ScanStep(enc, src, k, |CodeString(enc, src[..k])|, maxBits);
      PrefixIsNoLonger(enc, src, k + 1);
      if |CodeString(enc, src[..k + 1])| < maxBits {
        ScanByArithmetic(enc, src, k + 1, maxBits);
      }
    }
  }

  lemma PrefixIsNoLonger(enc: EncodeTable, src: seq<byte>, k: nat)
    requires k <= |src| && Encodable(enc, src)
    ensures |CodeString(enc, src[..k])| <= |CodeString(enc, src)|
  {
    CodeStringConcat(enc, src[..k], src[k..]);
    assert src == src[..k] + src[k..];
  }

  predicate TakesNormalPath(enc: EncodeTable, src: seq<byte>, before: seq<byte>)
    requires 0 < |before| <= MAX_BUFFER
  {
    ScanFrom(enc, src, 0, 0, 8 * (|before| - 1)).Fits?
  }

  /** The outcome of compression for valid code lengths, decided by lengths alone. */
  lemma CompressOutcome(enc: EncodeTable, src: seq<byte>, before: seq<byte>)
    requires 0 < |before| <= MAX_BUFFER && Encodable(enc, src)
    ensures TakesNormalPath(enc, src, before) <==> src == [] || |CodeString(enc, src)| < 8 * (|before| - 1)
    ensures var r := CompressInto(enc, src, before);
            if TakesNormalPath(enc, src, before) then
              r.err == None && r.bits == |CodeString(enc, src)| + 8
            else if |src| + 1 >= |before| then
              r.err == None && r.bits == |src| % TWO_TO_THE_32
            else
              r.bits == 0 && r.err.Some? && r.err.value.InsufficientSpace?
                && r.err.value.available == 8 * (|before| - 1)
  {
    hide Code;
    assert src[..0] == [];
    ScanByArithmetic(enc, src, 0, 8 * (|before| - 1));
  }

  lemma Add32Wraps(a: uint32, b: uint32)
    ensures Add32(a, b) == if a + b < 0x1_0000_0000 then a + b else a + b - 0x1_0000_0000
  {
  }

  /** As long as the codes fit, the scan gets to the next byte with their number counted. */
  lemma {:induction false} ScanReaches(enc: EncodeTable, src: seq<byte>, k: nat, maxBits: nat)
    requires k <= |src| && maxBits < 8 * MAX_BUFFER && Encodable(enc, src[..k])
    requires k == 0 || |CodeString(enc, src[..k])| < maxBits
    ensures ScanFrom(enc, src, 0, 0, maxBits) == ScanFrom(enc, src, k, |CodeString(enc, src[..k])|, maxBits)
  {
    hide Code, ScanFrom;
    if k == 0 {
      EmptyCodeString(enc, src);
    } else {
      assert HasCode(enc, src[..k][k - 1]) && src[..k][k - 1] == src[k - 1];
      assert src[..k][..k - 1] == src[..k - 1];
      PrefixIsNoLonger(enc, src[..k], k - 1);
      CodeStringNext(enc, src, k - 1);
      ScanReaches(enc, src, k - 1, maxBits);
      ScanStep(enc, src, k - 1, |CodeString(enc, src[..k - 1])|, maxBits);
    }
  }

  /**
   What becomes of the first byte that does not get its code written, for any
   table: no entry, no room, or a length over 32, in this order of precedence.
   */
  lemma CompressStops(enc: EncodeTable, src: seq<byte>, before: seq<byte>, k: nat)
    requires 0 < |before| <= MAX_BUFFER && k < |src| && Encodable(enc, src[..k])
    requires k == 0 || |CodeString(enc, src[..k])| < 8 * (|before| - 1)
    ensures |CodeString(enc, src[..k])| <= 8 * (|before| - 1)
    ensures var maxBits, codes := 8 * (|before| - 1), CodeString(enc, src[..k]);
            var r, image := CompressInto(enc, src, before), WriteBits(before, codes);
            if !InTable(enc, src[k]) then r == Compressed(0, Some(IndexOutOfRange(src[k])), image)
            else
              var length := CodeLength(enc, src[k]);
              var needed := (length + |codes|) % 0x1_0000_0000;
              && (needed >= maxBits && |src| + 1 < |before| ==>
                    r == Compressed(0, Some(InsufficientSpace(needed, maxBits)), image))
              && (needed >= maxBits && |src| + 1 >= |before| ==>
                    r == Compressed(|src| % 0x1_0000_0000, None, Stamped(image, |src|)))
              && (needed < maxBits && 32 < length <= 0xFFFF_FFF8 ==> r == Compressed(0, Some(PatternTooWide), image))
              && (needed < maxBits && length > 0xFFFF_FFF8 ==> r.bits == 0 && r.err == Some(IndexPanic))
  {
    hide Code, CodeString, WriteBits, Stamped, ScanFrom, Stray;
    if k == 0 {
      EmptyCodeString(enc, src);
    }
    ScanReaches(enc, src, k, 8 * (|before| - 1));
    ScanStep(enc, src, k, |CodeString(enc, src[..k])|, 8 * (|before| - 1));
  }

  /** With the router's buffer of 2n+64 bytes, codes of at most 16 bits always fit and nothing ever falls back. */
  lemma RouterBufferSuffices(enc: EncodeTable, src: seq<byte>, before: seq<byte>)
    requires |before| == 2 * |src| + 64 <= MAX_BUFFER
    ensures CompressInto(enc, src, before).err == None <==> TakesNormalPath(enc, src, before)
    ensures (forall i :: 0 <= i < |src| ==> HasCode(enc, src[i]) && CodeLength(enc, src[i]) <= 16)
            ==> TakesNormalPath(enc, src, before)
  {
    if forall i :: 0 <= i < |src| ==> HasCode(enc, src[i]) && CodeLength(enc, src[i]) <= 16 {
      assert Encodable(enc, src);
      CodeStringBound(enc, src, 16);
      CompressOutcome(enc, src, before);
    }
  }

  /** The normal path leaves a one, the codes, and whatever the buffer held behind them. */
  lemma NormalImage(enc: EncodeTable, src: seq<byte>, before: seq<byte>)
    requires 0 < |before| <= MAX_BUFFER && TakesNormalPath(enc, src, before)
    ensures Encodable(enc, src) && |CodeString(enc, src)| <= 8 * (|before| - 1)
    ensures var r := CompressInto(enc, src, before);
            && r.err == None && r.bits == |CodeString(enc, src)| + 8
            && |r.image| == |before| && r.image[0] == 1
            && BitsOf(r.image[1..]) == CodeString(enc, src) + BitsOf(before[1..])[|CodeString(enc, src)|..]
  {
    hide Code, BitsOf;
    assert src[..0] == [] && src[0..] == src;
    ScanIsWithin(enc, src, 0, 8 * (|before| - 1));
    var image := WriteBits(before, CodeString(enc, src));
    assert image[0 := 1][1..] == image[1..];
  }

  /**
   The fallback image of `n` input bytes: behind the first byte a quarter of `n`
   bytes, each `n` itself, then `n` modulo four bytes of 8(n + 1), all modulo 256
   and as far as there is room; elsewhere zeros for the first quarter of the
   buffer and `n` modulo four bytes more.
   */
  lemma FallbackRegions(image: seq<byte>, n: nat, j: nat)
    requires j < |image|
    ensures var r := Stamped(image, n);
            if 1 <= j < 1 + n / 4 then r[j] as int == n % 256
            else if 1 + n / 4 <= j < 1 + n / 4 + n % 4 then r[j] as int == (n + 1) * 8 % 256
            else r[j] == if j < |image| / 4 + n % 4 then 0 else image[j]
  {
    hide ByteOf;
    var quarter, odd := n / 4, n % 4;
    var offset := Min(1 + quarter, |image|);
    var thirdLen := Min(odd, |image| - offset);
    if 1 <= j < 1 + quarter {
      assert j < offset && Stamped(image, n)[j] == ByteOf(n % 256);
    } else if 1 + quarter <= j < 1 + quarter + odd {
      assert offset <= j < offset + thirdLen && Stamped(image, n)[j] == ByteOf((n + 1) * 8 % 256);
    } else {
      assert !(offset <= j < offset + thirdLen);
    }
  }

  /** A fallback image starts with a zero byte exactly when one of these lengths makes its zero region non-empty. */
  lemma FallbackFirstByte(image: seq<byte>, inputLen: nat)
    requires |image| > 0
    ensures Stamped(image, inputLen)[0] == if |image| >= 4 || inputLen % 4 != 0 then 0 else image[0]
  {
  }

  // ---------------------------------------------------------------- the jump table

  datatype JumpEntry = JumpEntry(ptr: Option<nat>, value: byte, hasValue: bool)

  type JumpTable = seq<JumpEntry>

  const BLANK := JumpEntry(None, 0, false)

  function EntryAt(table: JumpTable, i: nat): JumpEntry {
    if i < |table| then table[i] else BLANK
  }

  predicate IsLeaf(table: JumpTable, node: nat) {
    EntryAt(table, node).ptr.None? && EntryAt(table, node + 1).ptr.None?
  }

  /** A node has its two child slots in the table, and a leaf its value slot as well. */
  predicate NodeInTable(table: JumpTable, node: nat) {
    node + 1 < |table| && (IsLeaf(table, node) ==> node + 3 < |table|)
  }

  predicate SafeTable(table: JumpTable) {
    forall i :: 0 <= i < |table| && table[i].ptr.Some? ==> NodeInTable(table, table[i].ptr.value)
  }

  /** One bit of the walk: a nil child, an inner node, a value, or a leaf without one. */
  datatype Move = Dead | Inner(node: nat) | Emit(value: byte) | Hollow

  function MoveOn(table: JumpTable, node: nat, bit: bool): Move {
    match EntryAt(table, node + if bit then 1 else 0).ptr
    case None => Dead
    case Some(next) =>
      if !IsLeaf(table, next) then Inner(next)
      else if EntryAt(table, next + 3).hasValue then Emit(EntryAt(table, next + 3).value)
      else Hollow
  }

  /**
   One bit of the walk, by the entries of the table: the child's pointer leads
   on while the node there has a child, and else to the value three entries on.
   */
  lemma MoveByEntries(table: JumpTable, node: nat, bit: bool)
    requires node + 1 < |table|
    ensures var child, move := table[if bit then node + 1 else node], MoveOn(table, node, bit);
            && (child.ptr.None? ==> move == Dead)
            && (child.ptr.Some? && child.ptr.value + 3 < |table| ==>
                  var n := child.ptr.value;
                  if table[n].ptr.Some? || table[n + 1].ptr.Some? then move == Inner(n)
                  else move == if table[n + 3].hasValue then Emit(table[n + 3].value) else Hollow)
  {
  }

  /** The path `code` leads from `node` through inner nodes to a leaf holding `b`. */
  predicate Reaches(table: JumpTable, node: nat, code: seq<bool>, b: byte)
    decreases |code|
  {
    code != [] &&
    match MoveOn(table, node, code[0])
    case Inner(next) => Reaches(table, next, code[1..], b)
    case Emit(v) => v == b && |code| == 1
    case _ => false
  }

  /** The two tables agree on `b`: its code walks from the root to a leaf that holds it. */
  predicate Agrees(enc: EncodeTable, table: JumpTable, root: nat, b: byte) {
    HasCode(enc, b) && Reaches(table, root, Code(enc, b), b)
  }

  predicate AgreesOn(enc: EncodeTable, table: JumpTable, root: nat, src: seq<byte>) {
    forall i :: 0 <= i < |src| ==> Agrees(enc, table, root, src[i])
  }

  lemma {:induction false} ReachesPrefix(table: JumpTable, node: nat, c1: seq<bool>, b1: byte, c2: seq<bool>, b2: byte)
    requires Reaches(table, node, c1, b1) && Reaches(table, node, c2, b2) && c1 <= c2
    ensures b1 == b2 && c1 == c2
    decreases |c1|
  {
    hide MoveOn;
    match MoveOn(table, node, c1[0])
    case Inner(next) => ReachesPrefix(table, next, c1[1..], b1, c2[1..], b2);
    case Emit(v) => assert c1 == [c1[0]] && c2 == [c2[0]];
  }

  /** Agreement makes the encoder's table a prefix code. */
  lemma AgreementMakesPrefixCode(enc: EncodeTable, table: JumpTable, root: nat, b1: byte, b2: byte)
    requires Agrees(enc, table, root, b1) && Agrees(enc, table, root, b2)
    ensures Code(enc, b1) != []
    ensures Code(enc, b1) <= Code(enc, b2) <==> b1 == b2
  {
    hide Code, MoveOn;
    if Code(enc, b1) <= Code(enc, b2) {
      ReachesPrefix(table, root, Code(enc, b1), b1, Code(enc, b2), b2);
    }
  }

  lemma AgreesOnTail(enc: EncodeTable, table: JumpTable, root: nat, src: seq<byte>)
    requires src != [] && AgreesOn(enc, table, root, src)
    ensures Agrees(enc, table, root, src[0]) && AgreesOn(enc, table, root, src[1..])
    ensures Encodable(enc, src) && CodeString(enc, src) == Code(enc, src[0]) + CodeString(enc, src[1..])
  {
    hide Code, Reaches;
    assert Agrees(enc, table, root, src[0]);
    forall i | 0 <= i < |src| - 1
      ensures Agrees(enc, table, root, src[1..][i])
    {
      assert src[1..][i] == src[i + 1];
    }
  }

  lemma AgreementHasCodes(enc: EncodeTable, table: JumpTable, root: nat, src: seq<byte>)
    requires AgreesOn(enc, table, root, src) && src != []
    ensures Encodable(enc, src) && |CodeString(enc, src)| > 0
  {
    hide Code;
    AgreesOnTail(enc, table, root, src);
  }

  /** A code string determines its text: one is a prefix of another only if the texts are. */
  lemma {:induction false} CodeStringsPrefix(enc: EncodeTable, table: JumpTable, root: nat, a: seq<byte>, b: seq<byte>)
    requires AgreesOn(enc, table, root, a) && AgreesOn(enc, table, root, b)
    requires CodeString(enc, a) <= CodeString(enc, b)
    ensures a <= b
  {
    hide Code, Reaches;
    if a != [] {
      AgreesOnTail(enc, table, root, a);
      var ca, ra := Code(enc, a[0]), CodeString(enc, a[1..]);
      AgreementMakesPrefixCode(enc, table, root, a[0], a[0]);
      assert |CodeString(enc, a)| >= 1;
      if b == [] {
        assert false;
      } else {
        AgreesOnTail(enc, table, root, b);
        var cb, rb := Code(enc, b[0]), CodeString(enc, b[1..]);
        assert ca + ra <= cb + rb;
        if |ca| <= |cb| {
          assert ca == (ca + ra)[..|ca|] == (cb + rb)[..|ca|] == cb[..|ca|];
        } else {
          assert cb == (cb + rb)[..|cb|] == (ca + ra)[..|cb|] == ca[..|cb|];
        }
        AgreementMakesPrefixCode(enc, table, root, a[0], b[0]);
        AgreementMakesPrefixCode(enc, table, root, b[0], a[0]);
        assert a[0] == b[0];
        assert ra == (ca + ra)[|ca|..] && rb == (cb + rb)[|ca|..];
        CodeStringsPrefix(enc, table, root, a[1..], b[1..]);
        assert a == [a[0]] + a[1..] && b == [b[0]] + b[1..];
      }
    }
  }

  // ---------------------------------------------------------------- decompression

  datatype DecompressError =
    | Uninitialized
    | EmptyInput
    | ZeroBits
    | BadHeader
    | NoJumpTable
    | InputTooShort
    | DataExhausted
    | InvalidPointer
    | InvalidValue

  /** The bytes written before the walk ends, and the error it ends with, if any. */
  datatype Decoded = Decoded(out: seq<byte>, err: Option<DecompressError>)

  /**
   The walk from `node` over `bits` with space for `room` more bytes.  `short`
   says that the declared count runs past the data.
   */
  function DecodeBits(table: JumpTable, root: nat, node: nat, bits: seq<bool>, room: nat, short: bool): (r: Decoded)
    ensures |r.out| <= room && |r.out| <= |bits|
    ensures short && r.err == None ==> |r.out| == room
    decreases |bits|
  {
    if room == 0 then Decoded([], None)
    else if bits == [] then Decoded([], if short then Some(DataExhausted) else None)
    else
      match MoveOn(table, node, bits[0])
      case Dead => Decoded([], Some(InvalidPointer))
      case Hollow => Decoded([], Some(InvalidValue))
      case Inner(next) => DecodeBits(table, root, next, bits[1..], room, short)
      case Emit(v) =>
        var rest := DecodeBits(table, root, root, bits[1..], room - 1, short);
        Decoded([v] + rest.out, rest.err)
  }

  function Decompress(table: JumpTable, root: Option<nat>, input: seq<byte>, bitCount: uint32, room: nat): (r: Decoded)
    ensures |r.out| <= room
  {
    if input == [] then Decoded([], Some(EmptyInput))
    else if bitCount == 0 then Decoded([], Some(ZeroBits))
    else if input[0] != 1 then Decoded([], Some(BadHeader))
    else if root.None? then Decoded([], Some(NoJumpTable))
    else if |input| * 8 % TWO_TO_THE_32 < bitCount then Decoded([], Some(InputTooShort))
    else
      var available := Min(bitCount, 8 * (|input| - 1));
      DecodeBits(table, root.value, root.value, BitsOf(input[1..])[..available], room, available < bitCount)
  }

  lemma DecodeEnds(table: JumpTable, root: nat, node: nat, bits: seq<bool>, room: nat, short: bool)
    ensures room == 0 ==> DecodeBits(table, root, node, bits, room, short) == Decoded([], None)
    ensures bits == [] && room > 0 ==>
      DecodeBits(table, root, node, bits, room, short) == Decoded([], if short then Some(DataExhausted) else None)
  {
  }

  lemma DecodeStep(table: JumpTable, root: nat, node: nat, bits: seq<bool>, i: nat, room: nat, short: bool)
    requires i < |bits| && room > 0
    ensures DecodeBits(table, root, node, bits[i..], room, short) ==
            match MoveOn(table, node, bits[i])
            case Dead => Decoded([], Some(InvalidPointer))
            case Hollow => Decoded([], Some(InvalidValue))
            case Inner(next) => DecodeBits(table, root, next, bits[i + 1..], room, short)
            case Emit(v) =>
              var rest := DecodeBits(table, root, root, bits[i + 1..], room - 1, short);
              Decoded([v] + rest.out, rest.err)
  {
    assert bits[i..][1..] == bits[i + 1..];
  }

  lemma {:induction false} DecodeOneCode(table: JumpTable, root: nat, node: nat, code: seq<bool>, b: byte,
                                         rest: seq<bool>, room: nat, short: bool)
    requires Reaches(table, node, code, b) && room > 0
    ensures var d := DecodeBits(table, root, root, rest, room - 1, short);
            DecodeBits(table, root, node, code + rest, room, short) == Decoded([b] + d.out, d.err)
    decreases |code|
  {
    hide MoveOn;
    assert (code + rest)[1..] == code[1..] + rest;
    match MoveOn(table, node, code[0])
    case Inner(next) => DecodeOneCode(table, root, next, code[1..], b, rest, room, short);
    case Emit(v) => assert code[1..] + rest == rest;
  }

  /** The walk reads a code string back, as far as there is room, and goes on with what follows it. */
  lemma {:induction false} DecodeCodeString(enc: EncodeTable, table: JumpTable, root: nat, src: seq<byte>,
                                            rest: seq<bool>, room: nat, short: bool)
    requires AgreesOn(enc, table, root, src)
    ensures var d := DecodeBits(table, root, root, CodeString(enc, src) + rest, room, short);
            if room < |src| then d == Decoded(src[..room], None)
            else
              var e := DecodeBits(table, root, root, rest, room - |src|, short);
              d == Decoded(src + e.out, e.err)
    decreases |src|
  {
    hide Code, Reaches, MoveOn, DecodeBits, CodeString;
    if src == [] {
      EmptyCodeString(enc, src);
      assert src[..0] == src && [] + rest == rest;
      var e := DecodeBits(table, root, root, rest, room, short);
      assert src + e.out == e.out;
    } else if room == 0 {
      DecodeEnds(table, root, root, CodeString(enc, src) + rest, room, short);
      assert src[..room] == [];
    } else {
      AgreesOnTail(enc, table, root, src);
      var tail := CodeString(enc, src[1..]) + rest;
      assert CodeString(enc, src) + rest == Code(enc, src[0]) + tail;
      DecodeOneCode(table, root, root, Code(enc, src[0]), src[0], tail, room, short);
      DecodeCodeString(enc, table, root, src[1..], rest, room - 1, short);
      var e := DecodeBits(table, root, root, tail, room - 1, short);
      if room < |src| {
        assert src[..room] == [src[0]] + src[1..][..room - 1];
      } else {
        var f := DecodeBits(table, root, root, rest, room - |src|, short);
        assert e.out == src[1..] + f.out;
        assert [src[0]] + e.out == src + f.out;
      }
    }
  }

  lemma {:induction false} DecodePartOfCode(table: JumpTable, root: nat, node: nat, code: seq<bool>, b: byte, n: nat,
                                            room: nat)
    requires Reaches(table, node, code, b) && n < |code|
    ensures DecodeBits(table, root, node, code[..n], room, false) == Decoded([], None)
    decreases |code|
  {
    hide MoveOn;
    if n > 0 && room > 0 {
      var next := MoveOn(table, node, code[0]).node;
      assert code[..n][1..] == code[1..][..n - 1];
      DecodePartOfCode(table, root, next, code[1..], b, n - 1, room);
    }
  }

  /** Cutting a code string short yields exactly the symbols whose codes are complete. */
  lemma {:induction false} DecodeTruncated(enc: EncodeTable, table: JumpTable, root: nat, src: seq<byte>, n: nat,
                                           room: nat)
    requires AgreesOn(enc, table, root, src)
    requires n <= |CodeString(enc, src)| && room >= |src|
    ensures var d := DecodeBits(table, root, root, CodeString(enc, src)[..n], room, false);
            && d.err == None && d.out <= src
            && Encodable(enc, d.out) && |CodeString(enc, d.out)| <= n
            && (d.out == src || |CodeString(enc, src[..|d.out| + 1])| > n)
    decreases |src|
  {
    hide Code, Reaches, MoveOn, DecodeBits, CodeString;
    if src == [] {
      EmptyCodeString(enc, src);
      assert src[..0] == src;
      DecodeEnds(table, root, root, CodeString(enc, src)[..n], room, false);
    } else {
      AgreesOnTail(enc, table, root, src);
      var code, tail := Code(enc, src[0]), CodeString(enc, src[1..]);
      if n < |code| {
        assert CodeString(enc, src)[..n] == code[..n];
        DecodePartOfCode(table, root, root, code, src[0], n, room);
        EmptyCodeString(enc, src);
        OneMoreCode(enc, src, []);
      } else {
        var cut := tail[..n - |code|];
        assert CodeString(enc, src)[..n] == code + cut;
        DecodeOneCode(table, root, root, code, src[0], cut, room, false);
        DecodeTruncated(enc, table, root, src[1..], n - |code|, room - 1);
        OneMoreCode(enc, src, DecodeBits(table, root, root, cut, room - 1, false).out);
      }
    }
  }

  /** The codes of a prefix of a text, and of one symbol more, by those of its tail. */
  lemma OneMoreCode(enc: EncodeTable, src: seq<byte>, rest: seq<byte>)
    requires src != [] && Encodable(enc, src) && rest <= src[1..]
    ensures [src[0]] + rest <= src && Encodable(enc, [src[0]] + rest)
    ensures |CodeString(enc, [src[0]] + rest)| == |Code(enc, src[0])| + |CodeString(enc, rest)|
    ensures rest != src[1..] ==>
      |CodeString(enc, src[..|rest| + 2])| == |Code(enc, src[0])| + |CodeString(enc, src[1..][..|rest| + 1])|
    ensures |CodeString(enc, src[..1])| == |Code(enc, src[0])|
  {
    hide Code;
    assert src[..1] == [src[0]] && CodeString(enc, [src[0]]) == Code(enc, src[0]);
    CodeStringConcat(enc, [src[0]], rest);
    if rest != src[1..] {
      CodeStringConcat(enc, [src[0]], src[1..][..|rest| + 1]);
      assert src[..|rest| + 2] == [src[0]] + src[1..][..|rest| + 1];
    }
  }

  // ---------------------------------------------------------------- compression against decompression

  /** The part of a normal image that the count covers. */
  function Trimmed(enc: EncodeTable, src: seq<byte>, before: seq<byte>): (t: seq<byte>)
    requires 0 < |before| <= MAX_BUFFER && TakesNormalPath(enc, src, before)
  {
    NormalImage(enc, src, before);
    var r := CompressInto(enc, src, before);
    r.image[..BytesFor(r.bits)]
  }

  /** The bits that decompression sees when handed the first `len` bytes of a normal image. */
  lemma TrimmedBits(enc: EncodeTable, src: seq<byte>, before: seq<byte>, len: nat)
    requires 0 < |before| <= MAX_BUFFER && TakesNormalPath(enc, src, before)
    requires BytesFor(CompressInto(enc, src, before).bits) <= len <= |before|
    ensures Encodable(enc, src) && |CodeString(enc, src)| <= 8 * (len - 1)
    ensures var input := CompressInto(enc, src, before).image[..len];
            && input[0] == 1
            && BitsOf(input[1..]) == CodeString(enc, src) + BitsOf(before[1..])[|CodeString(enc, src)|..8 * (len - 1)]
  {
    hide Code, BitsOf;
    NormalImage(enc, src, before);
    var image := CompressInto(enc, src, before).image;
    var total := |CodeString(enc, src)|;
    assert image[..len][1..] == image[1..][..len - 1];
    BitsOfTake(image[1..], len - 1);
    assert (CodeString(enc, src) + BitsOf(before[1..])[total..])[..8 * (len - 1)]
        == CodeString(enc, src) + BitsOf(before[1..])[total..8 * (len - 1)];
  }

  /** Past its checks, decompression is the walk over the bits that are there. */
  lemma DecompressIsWalk(table: JumpTable, root: nat, input: seq<byte>, bitCount: uint32, room: nat)
    requires 0 < |input| <= MAX_BUFFER && input[0] == 1 && 0 < bitCount <= 8 * |input|
    ensures Decompress(table, Some(root), input, bitCount, room)
         == DecodeBits(table, root, root, BitsOf(input[1..])[..Min(bitCount, 8 * (|input| - 1))], room,
                       8 * (|input| - 1) < bitCount)
  {
  }

  /**
   Round trip: decompressing any prefix of the image that holds the counted
   bits, with the count less the eight bits of the header byte, gives back the
   source as far as there is room; fewer bits give a prefix of it.
   */
  lemma RoundTrip(enc: EncodeTable, table: JumpTable, root: nat, src: seq<byte>, before: seq<byte>, len: nat,
                  bitCount: uint32, room: nat)
    requires 0 < |before| <= MAX_BUFFER && TakesNormalPath(enc, src, before)
    requires AgreesOn(enc, table, root, src)
    requires BytesFor(CompressInto(enc, src, before).bits) <= len <= |before|
    requires 0 < bitCount <= CompressInto(enc, src, before).bits - 8
    ensures var d := Decompress(table, Some(root), CompressInto(enc, src, before).image[..len], bitCount, room);
            && d.err == None && d.out <= src
            && (bitCount == CompressInto(enc, src, before).bits - 8 ==>
                d.out == if room < |src| then src[..room] else src)
            && (room >= |src| ==> |CodeString(enc, d.out)| <= bitCount
                                  && (d.out == src || |CodeString(enc, src[..|d.out| + 1])| > bitCount))
  {
    hide Code, Reaches, MoveOn, BitsOf, CompressInto, DecodeBits, Decompress, CodeString;
    TrimmedBits(enc, src, before, len);
    NormalImage(enc, src, before);
    var input := CompressInto(enc, src, before).image[..len];
    DecompressIsWalk(table, root, input, bitCount, room);
    assert BitsOf(input[1..])[..bitCount] == CodeString(enc, src)[..bitCount];
    if bitCount == |CodeString(enc, src)| {
      assert CodeString(enc, src)[..bitCount] + [] == CodeString(enc, src);
      DecodeCodeString(enc, table, root, src, [], room, false);
      DecodeEnds(table, root, root, [], room - Min(room, |src|), false);
    }
    var enough := if room < |src| then |src| else room;
    DecodeTruncated(enc, table, root, src, bitCount, enough);
    DecodeWithLessRoom(table, root, root, CodeString(enc, src)[..bitCount], room, enough);
  }

  /** With less room the walk writes a prefix, and without error whenever the longer walk had none. */
  lemma {:induction false} DecodeWithLessRoom(table: JumpTable, root: nat, node: nat, bits: seq<bool>, less: nat,
                                              room: nat)
    requires less <= room && DecodeBits(table, root, node, bits, room, false).err == None
    ensures var d := DecodeBits(table, root, node, bits, less, false);
            d.err == None && d.out <= DecodeBits(table, root, node, bits, room, false).out
    decreases |bits|
  {
    hide MoveOn;
    if less > 0 && bits != [] {
      match MoveOn(table, node, bits[0])
      case Inner(next) => DecodeWithLessRoom(table, root, next, bits[1..], less, room);
      case Emit(v) => DecodeWithLessRoom(table, root, root, bits[1..], less - 1, room - 1);
    }
  }

  /**
   Fallback output is not a compressed text: its first byte is zero, so that
   decompression refuses it, unless the buffer has at most three bytes and the
   input length is a multiple of four; then the first byte is the stale one.
   */
  lemma FallbackIsRefused(enc: EncodeTable, table: JumpTable, root: nat, src: seq<byte>, before: seq<byte>,
                          len: nat, bitCount: uint32, room: nat)
    requires 0 < |before| <= MAX_BUFFER && Encodable(enc, src)
    requires !TakesNormalPath(enc, src, before) && |src| + 1 >= |before|
    requires 0 < len <= |before| && bitCount != 0
    ensures var image := CompressInto(enc, src, before).image;
            && |image| == |before|
            && image[0] == (if |before| >= 4 || |src| % 4 != 0 then 0 else before[0])
            && (|before| >= 4 || |src| % 4 != 0 || before[0] != 1
                <==> Decompress(table, Some(root), image[..len], bitCount, room).err == Some(BadHeader))
  {
    hide Code, BitsOf, DecodeBits, CodeString;
    CompressOutcome(enc, src, before);
    EmptyCodeString(enc, src);
    ScanIsWithin(enc, src, 0, 8 * (|before| - 1));
    var scan := ScanFrom(enc, src, 0, 0, 8 * (|before| - 1));
    var partial := WriteBits(before, CodeString(enc, src[..scan.at]));
    FallbackFirstByte(partial, |src|);
    DecompressRefuses(table, Some(root), CompressInto(enc, src, before).image[..len], bitCount, room);
  }

  /** What decompression refuses before it walks, each case exactly when it is due. */
  lemma DecompressRefuses(table: JumpTable, root: Option<nat>, input: seq<byte>, bitCount: uint32, room: nat)
    ensures var err := Decompress(table, root, input, bitCount, room).err;
            && (err == Some(EmptyInput) <==> input == [])
            && (err == Some(ZeroBits) <==> input != [] && bitCount == 0)
            && (err == Some(BadHeader) <==> input != [] && bitCount != 0 && input[0] != 1)
            && (err == Some(NoJumpTable) <==> input != [] && bitCount != 0 && input[0] == 1 && root.None?)
            && (err == Some(InputTooShort) <==>
                  input != [] && bitCount != 0 && input[0] == 1 && root.Some? && 8 * |input| % 0x1_0000_0000 < bitCount)
            && err != Some(Uninitialized)
  {
    if input != [] && root.Some? {
      var available := Min(bitCount, 8 * (|input| - 1));
      WalkFailsByWalking(table, root.value, root.value, BitsOf(input[1..])[..available], room, available < bitCount);
    }
  }

  lemma {:induction false} WalkFailsByWalking(table: JumpTable, root: nat, node: nat, bits: seq<bool>, room: nat,
                                              short: bool)
    ensures DecodeBits(table, root, node, bits, room, short).err
         in {None, Some(DataExhausted), Some(InvalidPointer), Some(InvalidValue)}
    decreases |bits|
  {
    hide MoveOn;
    if room > 0 && bits != [] {
      match MoveOn(table, node, bits[0])
      case Inner(next) => WalkFailsByWalking(table, root, next, bits[1..], room, short);
      case Emit(v) => WalkFailsByWalking(table, root, root, bits[1..], room - 1, short);
      case _ =>
    }
  }

  // ---------------------------------------------------------------- the count as returned

  /**
   Handing decompression the trimmed image together with the count as returned
   (eight more than the data bits) makes it read on into the padding of the
   last byte.  It succeeds exactly when that padding decodes to enough bytes to
   fill the destination before the data runs out.
   */
  lemma CountAsReturned(enc: EncodeTable, table: JumpTable, root: nat, src: seq<byte>, before: seq<byte>, room: nat)
    requires 0 < |before| <= MAX_BUFFER && TakesNormalPath(enc, src, before)
    requires AgreesOn(enc, table, root, src)
    ensures var r := CompressInto(enc, src, before);
            var total := r.bits - 8;
            var len := BytesFor(r.bits);
            && len <= |before| && 0 <= total <= 8 * (len - 1) < total + 8
            && var d := Decompress(table, Some(root), Trimmed(enc, src, before), r.bits, room);
               if room < |src| then d == Decoded(src[..room], None)
               else
                 var padding := DecodeBits(table, root, root, BitsOf(before[1..])[total..8 * (len - 1)], room - |src|,
                                           true);
                 d == Decoded(src + padding.out, padding.err)
  {
    hide Code, Reaches, MoveOn, BitsOf, CompressInto, DecodeBits, Decompress, CodeString;
    NormalImage(enc, src, before);
    var r := CompressInto(enc, src, before);
    var len := BytesFor(r.bits);
    TrimmedBits(enc, src, before, len);
    var bits := BitsOf(r.image[..len][1..]);
    DecompressIsWalk(table, root, r.image[..len], r.bits, room);
    assert bits[..8 * (len - 1)] == bits;
    DecodeCodeString(enc, table, root, src, BitsOf(before[1..])[r.bits - 8..8 * (len - 1)], room, true);
  }

  /**
   Exact fit succeeds; a destination with eight bytes to spare never does,
   because at most seven padding bits can decode before the data runs out.
   */
  lemma CountAsReturnedBoundary(enc: EncodeTable, table: JumpTable, root: nat, src: seq<byte>, before: seq<byte>,
                                room: nat)
    requires 0 < |before| <= MAX_BUFFER && TakesNormalPath(enc, src, before)
    requires AgreesOn(enc, table, root, src)
    ensures var d := Decompress(table, Some(root), Trimmed(enc, src, before), CompressInto(enc, src, before).bits,
                                room);
            && (room == |src| ==> d == Decoded(src, None))
            && (room >= |src| + 8 ==> d.err.Some?)
            && (room >= |src| && d.err == None ==> |d.out| == room && src <= d.out)
  {
    hide Code, Reaches, MoveOn, BitsOf, CompressInto, DecodeBits, Decompress, CodeString;
    NormalImage(enc, src, before);
    CountAsReturned(enc, table, root, src, before, room);
    if room == |src| {
      var r := CompressInto(enc, src, before);
      DecodeEnds(table, root, root, BitsOf(before[1..])[r.bits - 8..8 * (BytesFor(r.bits) - 1)], 0, true);
      assert src + [] == src;
    }
  }

  /** Trimmed normal-path outputs are equal only for equal inputs, whatever the buffers held. */
  lemma CompressInjective(enc: EncodeTable, table: JumpTable, root: nat,
                          a: seq<byte>, beforeA: seq<byte>, b: seq<byte>, beforeB: seq<byte>)
    requires 0 < |beforeA| <= MAX_BUFFER && TakesNormalPath(enc, a, beforeA) && AgreesOn(enc, table, root, a)
    requires 0 < |beforeB| <= MAX_BUFFER && TakesNormalPath(enc, b, beforeB) && AgreesOn(enc, table, root, b)
    requires CompressInto(enc, a, beforeA).bits == CompressInto(enc, b, beforeB).bits
    requires Trimmed(enc, a, beforeA) == Trimmed(enc, b, beforeB)
    ensures a == b
  {
    hide Code, Reaches, MoveOn, BitsOf, CompressInto, DecodeBits, Decompress, CodeString;
    NormalImage(enc, a, beforeA);
    NormalImage(enc, b, beforeB);
    var bits := CompressInto(enc, a, beforeA).bits;
    TrimmedBits(enc, a, beforeA, BytesFor(bits));
    TrimmedBits(enc, b, beforeB, BytesFor(bits));
    var stream := BitsOf(Trimmed(enc, a, beforeA)[1..]);
    assert CodeString(enc, a) == stream[..bits - 8] == CodeString(enc, b);
    CodeStringsPrefix(enc, table, root, a, b);
    CodeStringsPrefix(enc, table, root, b, a);
  }

  // ---------------------------------------------------------------- sound tables

  /** Every path from the root to a value is the code of that value. */
  ghost predicate Sound(enc: EncodeTable, table: JumpTable, root: nat) {
    forall path, b :: Reaches(table, root, path, b) ==> HasCode(enc, b) && Code(enc, b) == path
  }

  /** `path` leads from the root to `node`. */
  ghost predicate Leads(table: JumpTable, root: nat, path: seq<bool>, node: nat) {
    forall tail, b :: Reaches(table, node, tail, b) ==> Reaches(table, root, path + tail, b)
  }

  lemma LeadsOn(table: JumpTable, root: nat, path: seq<bool>, node: nat, bit: bool)
    requires Leads(table, root, path, node)
    ensures var move := MoveOn(table, node, bit);
            && (move.Inner? ==> Leads(table, root, path + [bit], move.node))
            && (move.Emit? ==> Reaches(table, root, path + [bit], move.value))
  {
    match MoveOn(table, node, bit)
    case Inner(next) =>
      forall tail, b | Reaches(table, next, tail, b)
        ensures Reaches(table, root, path + [bit] + tail, b)
      {
        assert ([bit] + tail)[1..] == tail;
        assert Reaches(table, node, [bit] + tail, b);
        assert path + ([bit] + tail) == path + [bit] + tail;
      }
    case Emit(v) => assert Reaches(table, node, [bit], v);
    case _ =>
  }

  lemma LeadsToRoot(table: JumpTable, root: nat)
    ensures Leads(table, root, [], root)
  {
    forall tail, b | Reaches(table, root, tail, b)
      ensures Reaches(table, root, [] + tail, b)
    {
      assert [] + tail == tail;
    }
  }

  /** A walk without error has read the codes of exactly what it wrote, up to a code that is still incomplete. */
  lemma {:induction false} DecodeIsSound(enc: EncodeTable, table: JumpTable, root: nat, node: nat, path: seq<bool>,
                                         bits: seq<bool>, room: nat)
    requires Sound(enc, table, root) && Leads(table, root, path, node)
    requires DecodeBits(table, root, node, bits, room, false).err == None
    ensures var d := DecodeBits(table, root, node, bits, room, false);
            && Encodable(enc, d.out)
            && (d.out != [] ==> CodeString(enc, d.out) <= path + bits)
    decreases |bits|
  {
    hide Code, Reaches, MoveOn, Leads;
    if room > 0 && bits != [] {
      LeadsOn(table, root, path, node, bits[0]);
      assert path + bits == path + [bits[0]] + bits[1..];
      match MoveOn(table, node, bits[0])
      case Inner(next) =>
        DecodeIsSound(enc, table, root, next, path + [bits[0]], bits[1..], room);
      case Emit(v) =>
        LeadsToRoot(table, root);
        DecodeIsSound(enc, table, root, root, [], bits[1..], room - 1);
        assert [] + bits[1..] == bits[1..];
        SoundStep(enc, v, DecodeBits(table, root, root, bits[1..], room - 1, false).out, path + [bits[0]], bits[1..]);
    }
  }

  lemma SoundStep(enc: EncodeTable, v: byte, rest: seq<byte>, code: seq<bool>, bits: seq<bool>)
    requires HasCode(enc, v) && Code(enc, v) == code && Encodable(enc, rest)
    requires rest != [] ==> CodeString(enc, rest) <= bits
    ensures Encodable(enc, [v] + rest)
    ensures CodeString(enc, [v] + rest) <= code + bits
  {
    hide Code;
    assert ([v] + rest)[1..] == rest;
    assert CodeString(enc, [v] + rest) == code + CodeString(enc, rest);
  }
}
