/**
 Machine bytes, their bits, and the little-endian integer fields that the
 codec, the cipher and the router share.  Bytes are bit-vectors, so that shifts
 and masks mean what they mean in the program; counters and identifiers are
 bounded integers whose wrap-around is written out.
 */
module Bytes {

  type byte = bv8
  type uint16 = n: int | 0 <= n < 0x1_0000
  type uint32 = n: int | 0 <= n < 0x1_0000_0000

  const TWO_TO_THE_16 := 0x1_0000
  const TWO_TO_THE_32 := 0x1_0000_0000

  datatype Option<+T> = None | Some(value: T)

  // ---------------------------------------------------------------- bytes and numbers

  lemma Successor(b: byte)
    requires b != 255
    ensures (b + 1) as int == b as int + 1
  {
  }

  lemma {:induction false} ByteExists(n: nat) returns (b: byte)
    requires n < 256
    ensures b as int == n
  {
    if n == 0 {
      b := 0;
    } else {
      b := ByteExists(n - 1);
      assert b != 255;
      Successor(b);
      b := b + 1;
    }
  }

  predicate HasValue(b: byte, n: nat) {
    b as int == n
  }

  lemma EveryValueHasAByte(n: nat)
    requires n < 256
    ensures exists b: byte :: HasValue(b, n)
  {
    var b := ByteExists(n);
    assert HasValue(b, n);
  }

  /** The byte with value `n`. */
  function ByteOf(n: nat): (b: byte)
    requires n < 256
    ensures b as int == n
  {
    assert (n as bv8) as int == n by {
      EveryValueHasAByte(n);
      var b: byte :| HasValue(b, n);
      assert (b as int) as bv8 == b;
    }
    n as bv8
  }

  lemma ByteOfValue(b: byte)
    ensures ByteOf(b as int) == b
  {
  }

  function Zeros(n: nat): (s: seq<byte>)
    ensures |s| == n
    ensures forall i :: 0 <= i < n ==> s[i] == 0
  {
    seq(n, _ => 0)
  }

  // ---------------------------------------------------------------- bits

  /** Bit `k` of a byte, least significant first: `(b >> k) & 1`. */
  predicate BitOf(b: byte, k: nat)
    requires k < 8
  {
    (b >> k) & 1 == 1
  }

  /** That bit as a byte. */
  function BitAt(b: byte, k: nat): (bit: byte)
    requires k < 8
    ensures bit == if BitOf(b, k) then 1 else 0
  {
    (b >> k) & 1
  }

  function Shifted(bit: byte, k: nat): byte
    requires k < 8
  {
    bit << k
  }

  lemma ShiftedIsConstant(k: nat)
    requires k < 8
    ensures Shifted(1, k) == if k == 0 then 1 else if k == 1 then 2 else if k == 2 then 4 else if k == 3 then 8
                             else if k == 4 then 16 else if k == 5 then 32 else if k == 6 then 64 else 128
    ensures Shifted(0, k) == 0
  {
    if k == 0 {} else if k == 1 {} else if k == 2 {} else if k == 3 {}
    else if k == 4 {} else if k == 5 {} else if k == 6 {} else { assert k == 7; }
  }

  predicate OneBit(m: byte) {
    m != 0 && m & (m - 1) == 0
  }

  lemma ShiftedIsOneBit(k: nat)
    requires k < 8
    ensures OneBit(Shifted(1, k)) && Shifted(0, k) == 0
  {
    ShiftedIsConstant(k);
  }

  lemma ShiftedInjective(j: nat, k: nat)
    requires j < 8 && k < 8
    ensures Shifted(1, j) == Shifted(1, k) <==> j == k
  {
    ShiftedIsConstant(j);
    ShiftedIsConstant(k);
  }

  lemma BitOfIsMask(b: byte, k: nat)
    requires k < 8
    ensures BitOf(b, k) <==> b & Shifted(1, k) != 0
  {
    ShiftedIsConstant(k);
    if k == 0 {} else if k == 1 {} else if k == 2 {} else if k == 3 {}
    else if k == 4 {} else if k == 5 {} else if k == 6 {} else { assert k == 7; }
  }

  lemma SameBitsSameByte(a: byte, b: byte)
    requires forall k :: 0 <= k < 8 ==> BitOf(a, k) == BitOf(b, k)
    ensures a == b
  {
    assert BitOf(a, 0) == BitOf(b, 0);
    assert BitOf(a, 1) == BitOf(b, 1);
    assert BitOf(a, 2) == BitOf(b, 2);
    assert BitOf(a, 3) == BitOf(b, 3);
    assert BitOf(a, 4) == BitOf(b, 4);
    assert BitOf(a, 5) == BitOf(b, 5);
    assert BitOf(a, 6) == BitOf(b, 6);
    assert BitOf(a, 7) == BitOf(b, 7);
  }

  /** The bits of a byte string in stream order. */
  function BitsOf(s: seq<byte>): (r: seq<bool>)
    ensures |r| == 8 * |s|
  {
    seq(8 * |s|, i requires 0 <= i < 8 * |s| => BitOf(s[i / 8], i % 8))
  }

  lemma BitsOfAt(s: seq<byte>, i: nat)
    requires i < 8 * |s|
    ensures BitsOf(s)[i] == BitOf(s[i / 8], i % 8)
  {
  }

  lemma BitsOfInjective(a: seq<byte>, b: seq<byte>)
    requires BitsOf(a) == BitsOf(b)
    ensures a == b
  {
    assert 8 * |a| == 8 * |b|;
    forall i | 0 <= i < |a|
      ensures a[i] == b[i]
    {
      forall k | 0 <= k < 8
        ensures BitOf(a[i], k) == BitOf(b[i], k)
      {
        assert (8 * i + k) / 8 == i && (8 * i + k) % 8 == k;
        assert BitsOf(a)[8 * i + k] == BitsOf(b)[8 * i + k];
      }
      SameBitsSameByte(a[i], b[i]);
    }
  }

  lemma BitsOfConcat(a: seq<byte>, b: seq<byte>)
    ensures BitsOf(a + b) == BitsOf(a) + BitsOf(b)
  {
    forall i | 0 <= i < 8 * (|a| + |b|)
      ensures BitsOf(a + b)[i] == (BitsOf(a) + BitsOf(b))[i]
    {
      if i >= 8 * |a| {
        assert i / 8 == |a| + (i - 8 * |a|) / 8 && i % 8 == (i - 8 * |a|) % 8;
      }
    }
  }

  lemma BitsOfTake(s: seq<byte>, n: nat)
    requires n <= |s|
    ensures BitsOf(s[..n]) == BitsOf(s)[..8 * n]
  {
    assert s == s[..n] + s[n..];
    BitsOfConcat(s[..n], s[n..]);
  }

  function MakeByte(f: seq<bool>): (b: byte)
    requires |f| == 8
    ensures forall k :: 0 <= k < 8 ==> BitOf(b, k) == f[k]
  {
    var b: byte := (if f[0] then 1 else 0) | (if f[1] then 2 else 0) | (if f[2] then 4 else 0) | (if f[3] then 8 else 0)
      | (if f[4] then 16 else 0) | (if f[5] then 32 else 0) | (if f[6] then 64 else 0) | (if f[7] then 128 else 0);
    MakeByteBits(f, b);
    b
  }

  lemma MakeByteBits(f: seq<bool>, b: byte)
    requires |f| == 8
    requires b == (if f[0] then 1 else 0) | (if f[1] then 2 else 0) | (if f[2] then 4 else 0) | (if f[3] then 8 else 0)
      | (if f[4] then 16 else 0) | (if f[5] then 32 else 0) | (if f[6] then 64 else 0) | (if f[7] then 128 else 0)
    ensures forall k :: 0 <= k < 8 ==> BitOf(b, k) == f[k]
  {
    assert BitOf(b, 0) == f[0];
    assert BitOf(b, 1) == f[1];
    assert BitOf(b, 2) == f[2];
    assert BitOf(b, 3) == f[3];
    assert BitOf(b, 4) == f[4];
    assert BitOf(b, 5) == f[5];
    assert BitOf(b, 6) == f[6];
    assert BitOf(b, 7) == f[7];
  }

  /** The fewest bytes that hold `bits` bits; `(bits + 7) / 8`. */
  function BytesFor(bits: nat): nat {
    (bits + 7) / 8
  }

  /** The bytes that hold `bits`, the last one padded with zero bits. */
  function PackBits(bits: seq<bool>): (s: seq<byte>)
    ensures |s| == BytesFor(|bits|)
    ensures forall i :: 0 <= i < 8 * |s| ==> BitsOf(s)[i] == (i < |bits| && bits[i])
  {
    seq(BytesFor(|bits|), i requires 0 <= i < BytesFor(|bits|) =>
      MakeByte(seq(8, k requires 0 <= k < 8 => 8 * i + k < |bits| && bits[8 * i + k])))
  }

  // ---------------------------------------------------------------- little-endian fields

  function PutUint16(n: uint16): (s: seq<byte>)
    ensures |s| == 2
  {
    [ByteOf(n % 256), ByteOf(n / 256)]
  }

  function Uint16(s: seq<byte>): uint16
    requires |s| == 2
  {
    s[0] as int + 256 * (s[1] as int)
  }

  function PutUint32(n: uint32): (s: seq<byte>)
    ensures |s| == 4
  {
    [ByteOf(n % 256), ByteOf(n / 256 % 256), ByteOf(n / 256 / 256 % 256), ByteOf(n / 256 / 256 / 256)]
  }

  function Uint32(s: seq<byte>): uint32
    requires |s| == 4
  {
    Base256(s[0] as int, s[1] as int, s[2] as int, s[3] as int)
  }

  function Base256(a: nat, b: nat, c: nat, d: nat): (n: uint32)
    requires a < 256 && b < 256 && c < 256 && d < 256
    ensures n % 256 == a && n / 256 % 256 == b && n / 256 / 256 % 256 == c && n / 256 / 256 / 256 == d
  {
    var n := a + 256 * (b + 256 * (c + 256 * d));
    assert n / 256 == b + 256 * (c + 256 * d);
    assert n / 256 / 256 == c + 256 * d;
    n
  }

  lemma Uint16RoundTrip(n: uint16)
    ensures Uint16(PutUint16(n)) == n
  {
  }

  lemma Uint32RoundTrip(n: uint32)
    ensures Uint32(PutUint32(n)) == n
  {
    assert n == n % 256 + 256 * (n / 256);
    assert n / 256 == n / 256 % 256 + 256 * (n / 256 / 256);
    assert n / 256 / 256 == n / 256 / 256 % 256 + 256 * (n / 256 / 256 / 256);
  }

  lemma PutUint32OfBytes(s: seq<byte>)
    requires |s| == 4
    ensures PutUint32(Uint32(s)) == s
  {
    forall i | 0 <= i < 4
      ensures ByteOf(s[i] as int) == s[i]
    {
      ByteOfValue(s[i]);
    }
  }

  // ---------------------------------------------------------------- what a string of bits is worth

  /** The number that bits stand for, the least significant first. */
  function Value(bits: seq<bool>): nat {
    if bits == [] then 0 else Weight(bits[0], 1) + 2 * Value(bits[1..])
  }

  function Weight(bit: bool, weight: nat): nat {
    if bit then weight else 0
  }

  lemma ByteIsSum(b: byte)
    ensures b as int == Weight(BitOf(b, 0), 1) + Weight(BitOf(b, 1), 2) + Weight(BitOf(b, 2), 4)
                        + Weight(BitOf(b, 3), 8) + Weight(BitOf(b, 4), 16) + Weight(BitOf(b, 5), 32)
                        + Weight(BitOf(b, 6), 64) + Weight(BitOf(b, 7), 128)
  {
  }

  lemma ValueInSteps(bits: seq<bool>)
    requires |bits| >= 4
    ensures Value(bits) == Weight(bits[0], 1) + Weight(bits[1], 2) + Weight(bits[2], 4) + Weight(bits[3], 8)
                           + 16 * Value(bits[4..])
  {
    assert Value(bits) == Weight(bits[0], 1) + 2 * Value(bits[1..]);
    assert bits[1..][1..] == bits[2..] && bits[2..][1..] == bits[3..] && bits[3..][1..] == bits[4..];
  }

  lemma ValueOfEight(b: byte, bits: seq<bool>)
    requires |bits| >= 8 && bits[..8] == BitsOf([b])
    ensures Value(bits) == b as int + 256 * Value(bits[8..])
  {
    hide BitOf, Value, Weight;
    ValueInSteps(bits);
    ValueInSteps(bits[4..]);
    assert bits[4..][4..] == bits[8..];
    ByteIsSum(b);
    forall k | 0 <= k < 8
      ensures bits[k] == BitOf(b, k)
    {
      assert bits[k] == bits[..8][k];
    }
    WeightsOfNibble(bits[4], bits[5], bits[6], bits[7]);
  }

  lemma WeightsOfNibble(a: bool, b: bool, c: bool, d: bool)
    ensures 16 * (Weight(a, 1) + Weight(b, 2) + Weight(c, 4) + Weight(d, 8))
         == Weight(a, 16) + Weight(b, 32) + Weight(c, 64) + Weight(d, 128)
  {
  }

  /** A byte string is worth its first byte and 256 times the rest. */
  lemma ValueOfBytes(s: seq<byte>)
    requires s != []
    ensures Value(BitsOf(s)) == s[0] as int + 256 * Value(BitsOf(s[1..]))
  {
    hide BitOf, BitsOf, Value;
    assert s == [s[0]] + s[1..];
    BitsOfConcat([s[0]], s[1..]);
    assert BitsOf(s)[8..] == BitsOf(s[1..]);
    ValueOfEight(s[0], BitsOf(s));
  }

  lemma ValueOfNothing(s: seq<byte>)
    requires s == []
    ensures Value(BitsOf(s)) == 0
  {
  }

  lemma ValueOfTwo(s: seq<byte>)
    requires |s| >= 2
    ensures Value(BitsOf(s)) == s[0] as int + 0x100 * (s[1] as int) + 0x1_0000 * Value(BitsOf(s[2..]))
  {
    hide BitsOf, Value;
    ValueOfBytes(s);
    ValueOfBytes(s[1..]);
    assert s[1..][1..] == s[2..];
  }

  lemma FieldsAreSums(two: seq<byte>, four: seq<byte>)
    requires |two| == 2 && |four| == 4
    ensures Uint16(two) == two[0] as int + 0x100 * (two[1] as int)
    ensures Uint32(four)
         == four[0] as int + 0x100 * (four[1] as int) + 0x1_0000 * (four[2] as int) + 0x100_0000 * (four[3] as int)
  {
  }

  /** The integer fields are little-endian: what they read is the worth of their bits, lowest first. */
  lemma FieldsAreLittleEndian(two: seq<byte>, four: seq<byte>)
    requires |two| == 2 && |four| == 4
    ensures Uint16(two) == Value(BitsOf(two)) == two[0] as int + 0x100 * (two[1] as int)
    ensures Uint32(four) == Value(BitsOf(four))
         == four[0] as int + 0x100 * (four[1] as int) + 0x1_0000 * (four[2] as int) + 0x100_0000 * (four[3] as int)
  {
    hide BitsOf, Value, Uint16, Uint32;
    FieldsAreSums(two, four);
    ValueOfTwo(two);
    ValueOfNothing(two[2..]);
    ValueOfTwo(four);
    ValueOfTwo(four[2..]);
    ValueOfNothing(four[2..][2..]);
  }

  /** And so are the fields as they are written. */
  lemma WrittenFields(n: uint16, m: uint32)
    ensures Value(BitsOf(PutUint16(n))) == n && Value(BitsOf(PutUint32(m))) == m
  {
    hide BitsOf, Value, PutUint16, PutUint32, Uint16, Uint32;
    FieldsAreLittleEndian(PutUint16(n), PutUint32(m));
    Uint16RoundTrip(n);
    Uint32RoundTrip(m);
  }
}
