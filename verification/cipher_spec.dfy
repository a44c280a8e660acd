/**
 The modified Blowfish as mathematics: the Feistel network, its use on byte
 strings and packets, and the key schedule as a function of the key alone.
 */
module CipherSpec {
  import opened Bytes

  type word = bv32

  const ROUNDS := 16
  const P_SIZE := 18
  const S_SIZE := 1024
  const P_PAIRS := 9
  const S_PAIRS := 512
  const KEY_SIZE := 20
  const HASH_SIZE := 16

  type PBox = p: seq<word> | |p| == P_SIZE witness seq(P_SIZE, _ => 0)
  type SBox = s: seq<word> | |s| == S_SIZE witness seq(S_SIZE, _ => 0)
  type Pair = (word, word)

  /** The digest function and the constant dump that the key schedule starts from. */
  type Digest = f: seq<byte> -> seq<byte> | forall s :: |f(s)| == HASH_SIZE witness _ => Zeros(HASH_SIZE)
  type BaseTable = b: seq<byte> | |b| == 4 * (P_SIZE + S_SIZE) witness Zeros(4 * (P_SIZE + S_SIZE))
  datatype Env = Env(md5: Digest, subKey: BaseTable)

  // ---------------------------------------------------------------- words

  function WordOf(s: seq<byte>): word
    requires |s| == 4
  {
    (s[0] as word) | ((s[1] as word) << 8) | ((s[2] as word) << 16) | ((s[3] as word) << 24)
  }

  function PutWord(w: word): (s: seq<byte>)
    ensures |s| == 4
  {
    [(w & 0xFF) as byte, ((w >> 8) & 0xFF) as byte, ((w >> 16) & 0xFF) as byte, ((w >> 24) & 0xFF) as byte]
  }

  lemma WordRoundTrip(w: word)
    ensures WordOf(PutWord(w)) == w
  {
  }

  lemma PutWordOfBytes(s: seq<byte>)
    requires |s| == 4
    ensures PutWord(WordOf(s)) == s
  {
    var t := PutWord(WordOf(s));
    assert t[0] == s[0];
    assert t[1] == s[1];
    assert t[2] == s[2];
    assert t[3] == s[3];
  }

  /** A word is written lowest byte first: shifting a byte in from below puts it in front. */
  lemma PutWordIsLittleEndian(w: word, b: byte)
    ensures var s := PutWord(w); PutWord((w << 8) | (b as word)) == [b, s[0], s[1], s[2]]
    ensures PutWord(0) == [0, 0, 0, 0]
  {
  }

  /** Exclusive or, named so that the rounds can be argued from its two laws alone. */
  function Xor(a: word, b: word): word {
    a ^ b
  }

  lemma XorCancels(a: word, b: word)
    ensures Xor(Xor(a, b), b) == a
  {
  }

  lemma XorRecovers(a: word, b: word)
    ensures Xor(a, Xor(a, b)) == b
  {
  }

  lemma XorExchanges(a: word, b: word, c: word)
    ensures Xor(Xor(Xor(a, b), c), b) == Xor(a, c)
  {
    assert (a ^ b) ^ c == (a ^ c) ^ b;
    XorCancels(a ^ c, b);
  }

  // ---------------------------------------------------------------- the Feistel network

  /** `(entry & 1) ^ 32`. */
  function Nudge(entry: word): word {
    (entry & 1) ^ 32
  }

  lemma NudgeIsLowestBit(entry: word)
    ensures Nudge(entry) == if entry & 1 == 1 then 33 else 32
  {
  }

  /** The word that a byte selects in the part of S that starts at `part`. */
  function Entry(s: SBox, part: nat, b: byte): word
    requires part <= 768
  {
    s[part + b as int]
  }

  function AddFour(a: word, b: word, c: word, d: word): word {
    a + b + c + d
  }

  /** The round function. */
  function Tt(working: word, s: SBox): word {
    AddFour(Nudge(Entry(s, 256, ((working >> 8) & 0xFF) as byte)), Nudge(Entry(s, 768, (working >> 24) as byte)),
        Entry(s, 512, ((working >> 16) & 0xFF) as byte), Entry(s, 0, (working & 0xFF) as byte))
  }

  lemma BytesOfWord(w: word)
    ensures var b := PutWord(w);
            b[0] == (w & 0xFF) as byte && b[1] == ((w >> 8) & 0xFF) as byte
            && b[2] == ((w >> 16) & 0xFF) as byte && b[3] == (w >> 24) as byte
  {
  }

  lemma TtByBytes(w: word, s: SBox)
    ensures var b := PutWord(w);
            Tt(w, s)
            == AddFour(Nudge(Entry(s, 256, b[1])), Nudge(Entry(s, 768, b[3])), Entry(s, 512, b[2]), Entry(s, 0, b[0]))
  {
    hide Nudge, PutWord, Entry, AddFour;
    BytesOfWord(w);
  }

  /**
   What the round function computes, by the bytes of its argument: the sum of
   two table words whole and, for two others, of 32 or 33 by their lowest bit.
   */
  lemma TtExactly(w: word, s: SBox)
    ensures var b := PutWord(w);
            Tt(w, s) == AddFour(if s[256 + b[1] as int] & 1 == 1 then 33 else 32,
                                if s[768 + b[3] as int] & 1 == 1 then 33 else 32,
                                s[512 + b[2] as int], s[b[0] as int])
  {
    hide Nudge, PutWord, Tt, AddFour;
    var b := PutWord(w);
    TtByBytes(w, s);
    NudgeIsLowestBit(s[256 + b[1] as int]);
    NudgeIsLowestBit(s[768 + b[3] as int]);
  }

  /** It reads four table words and nothing else, and of two of them only the lowest bit. */
  lemma TtReadsFour(w: word, s: SBox, u: SBox)
    requires var b := PutWord(w);
             && s[b[0] as int] == u[b[0] as int] && s[512 + b[2] as int] == u[512 + b[2] as int]
             && s[256 + b[1] as int] & 1 == u[256 + b[1] as int] & 1
             && s[768 + b[3] as int] & 1 == u[768 + b[3] as int] & 1
    ensures Tt(w, s) == Tt(w, u)
  {
    hide PutWord, Tt, AddFour, Nudge;
    TtByBytes(w, s);
    TtByBytes(w, u);
    var b := PutWord(w);
    NudgeReadsLowest(Entry(s, 256, b[1]), Entry(u, 256, b[1]));
    NudgeReadsLowest(Entry(s, 768, b[3]), Entry(u, 768, b[3]));
  }

  lemma NudgeReadsLowest(x: word, y: word)
    requires x & 1 == y & 1
    ensures Nudge(x) == Nudge(y)
  {
  }

  lemma AddFourIsAddition(a: word, b: word, c: word, d: word)
    ensures AddFour(a, b, c, d) == a + b + c + d
  {
  }

  // Sums named as relations, so that each step below is about one addition.

  predicate IsPlus(y: word, x: word, d: word) {
    y == x + d
  }

  predicate IsSum(x: word, a: word, b: word, c: word, e: word) {
    x == a + b + c + e
  }

  predicate IsLongerSum(y: word, a: word, b: word, c: word, e: word, d: word) {
    y == a + b + c + e + d
  }

  lemma AddFourIsSum(a: word, b: word, c: word, d: word)
    ensures IsSum(AddFour(a, b, c, d), a, b, c, d)
  {
  }

  lemma MoreInThird(y: word, a: word, b: word, f: word, e: word, c: word, d: word)
    requires IsSum(y, a, b, f, e) && IsPlus(f, c, d)
    ensures IsLongerSum(y, a, b, c, e, d)
  {
  }

  lemma MoreInLast(y: word, a: word, b: word, c: word, f: word, e: word, d: word)
    requires IsSum(y, a, b, c, f) && IsPlus(f, e, d)
    ensures IsLongerSum(y, a, b, c, e, d)
  {
  }

  lemma LongerByOne(y: word, x: word, a: word, b: word, c: word, e: word, d: word)
    requires IsLongerSum(y, a, b, c, e, d) && IsSum(x, a, b, c, e)
    ensures IsPlus(y, x, d)
  {
  }

  /** A change in one part of S leaves what the other parts select alone. */
  lemma EntryAfterChange(s: SBox, part: nat, b: byte, f: word, other: nat, c: byte)
    requires part in {0, 256, 512, 768} && other in {0, 256, 512, 768}
    ensures Entry(s[part + b as int := f], other, c) == if part == other && b == c then f else Entry(s, other, c)
  {
    assert b as int == c as int ==> b == c;
  }

  /** Where either of the two whole words grows by `d`, so does the result. */
  lemma TtAdds(w: word, s: SBox, f: word, d: word)
    ensures var b := PutWord(w);
            && (IsPlus(f, s[b[0] as int], d) ==> IsPlus(Tt(w, s[b[0] as int := f]), Tt(w, s), d))
            && (IsPlus(f, s[512 + b[2] as int], d) ==> IsPlus(Tt(w, s[512 + b[2] as int := f]), Tt(w, s), d))
  {
    hide PutWord, Tt, Nudge, AddFour, IsPlus, IsSum, IsLongerSum;
    var b := PutWord(w);
    if IsPlus(f, s[b[0] as int], d) {
      TtAddsPart(w, s, 0, b[0], f, d);
      assert s[0 + b[0] as int := f] == s[b[0] as int := f];
    }
    if IsPlus(f, s[512 + b[2] as int], d) {
      TtAddsPart(w, s, 512, b[2], f, d);
    }
  }

  lemma TtAddsPart(w: word, s: SBox, part: nat, b: byte, f: word, d: word)
    requires (part == 0 && b == PutWord(w)[0]) || (part == 512 && b == PutWord(w)[2])
    requires IsPlus(f, Entry(s, part, b), d)
    ensures IsPlus(Tt(w, s[part + b as int := f]), Tt(w, s), d)
  {
    hide PutWord, Tt, Nudge, AddFour, IsPlus, IsSum, IsLongerSum, Entry;
    var u, v := s[part + b as int := f], PutWord(w);
    var n1, n3, c, e := Nudge(Entry(s, 256, v[1])), Nudge(Entry(s, 768, v[3])), Entry(s, 512, v[2]), Entry(s, 0, v[0]);
    TtByBytes(w, s);
    TtByBytes(w, u);
    AddFourIsSum(n1, n3, c, e);
    EntryAfterChange(s, part, b, f, 256, v[1]);
    EntryAfterChange(s, part, b, f, 768, v[3]);
    EntryAfterChange(s, part, b, f, 512, v[2]);
    EntryAfterChange(s, part, b, f, 0, v[0]);
    if part == 0 {
      AddFourIsSum(n1, n3, c, f);
      MoreInLast(Tt(w, u), n1, n3, c, f, e, d);
    } else {
      AddFourIsSum(n1, n3, f, e);
      MoreInThird(Tt(w, u), n1, n3, f, e, c, d);
    }
    LongerByOne(Tt(w, u), Tt(w, s), n1, n3, c, e, d);
  }

  lemma TtOfZeros(w: word, s: SBox)
    requires forall i :: 0 <= i < S_SIZE ==> s[i] == 0
    ensures Tt(w, s) == 64
  {
    hide PutWord, Tt;
    TtExactly(w, s);
  }

  /** Rounds `i` to fifteen, halves exchanged after each. */
  function Forward(p: PBox, s: SBox, i: nat, xl: word, xr: word): Pair
    requires i <= ROUNDS
    decreases ROUNDS - i
  {
    if i == ROUNDS then (xl, xr) else Forward(p, s, i + 1, Xor(xr, Tt(Xor(xl, p[i]), s)), Xor(xl, p[i]))
  }

  function Encipher(p: PBox, s: SBox, xl: word, xr: word): Pair {
    var (l, r) := Forward(p, s, 0, xl, xr);
    (Xor(r, p[ROUNDS + 1]), Xor(l, p[ROUNDS]))
  }

  /** One round, as it is usually drawn. */
  function Round(key: word, s: SBox, x: Pair): Pair {
    (x.1 ^ Tt(x.0 ^ key, s), x.0 ^ key)
  }

  /** `trace` are the halves before each of sixteen rounds and after the last. */
  predicate SixteenRounds(p: PBox, s: SBox, trace: seq<Pair>) {
    |trace| == 17 && forall i :: 0 <= i < 16 ==> trace[i + 1] == Round(p[i], s, trace[i])
  }

  lemma {:induction false} ForwardFollowsRounds(p: PBox, s: SBox, trace: seq<Pair>, i: nat)
    requires SixteenRounds(p, s, trace) && i <= 16
    ensures Forward(p, s, i, trace[i].0, trace[i].1) == trace[16]
    decreases 16 - i
  {
    hide Tt;
    if i < 16 {
      ForwardFollowsRounds(p, s, trace, i + 1);
    }
  }

  /** Sixteen rounds end in this block: the halves exchanged back, each with one of the last two words of P. */
  predicate EndsIn(p: PBox, trace: seq<Pair>, block: Pair) {
    |trace| == 17 && block == (trace[16].1 ^ p[17], trace[16].0 ^ p[16])
  }

  /** Enciphering is sixteen rounds, the halves exchanged back, and the last two words of P. */
  lemma EncipherIsSixteenRounds(p: PBox, s: SBox, trace: seq<Pair>)
    requires SixteenRounds(p, s, trace)
    ensures Encipher(p, s, trace[0].0, trace[0].1) == (trace[16].1 ^ p[17], trace[16].0 ^ p[16])
    ensures EndsIn(p, trace, Encipher(p, s, trace[0].0, trace[0].1))
  {
    hide Tt, Forward, Round;
    ForwardFollowsRounds(p, s, trace, 0);
  }

  /** Every block has its sixteen rounds. */
  lemma RoundsExist(p: PBox, s: SBox, xl: word, xr: word) returns (trace: seq<Pair>)
    ensures SixteenRounds(p, s, trace) && trace[0] == (xl, xr)
  {
    hide Round;
    trace := [(xl, xr)];
    for i := 0 to 16
      invariant |trace| == i + 1 && trace[0] == (xl, xr)
      invariant forall j :: 0 <= j < i ==> trace[j + 1] == Round(p[j], s, trace[j])
    {
      trace := trace + [Round(p[i], s, trace[i])];
    }
  }

  /** The rounds of deciphering, with keys `i` down to two. */
  function Backward(p: PBox, s: SBox, i: nat, xl: word, xr: word): Pair
    requires 1 <= i <= ROUNDS + 1
  {
    if i == 1 then (xl, xr) else Backward(p, s, i - 1, Xor(xr, Tt(Xor(xl, p[i]), s)), Xor(xl, p[i]))
  }

  function Decipher(p: PBox, s: SBox, xl: word, xr: word): Pair {
    var (l, r) := Backward(p, s, ROUNDS + 1, xl, xr);
    (Xor(r, p[0]), Xor(l, p[1]))
  }

  /** The backward rounds retrace the forward ones, one round at a time. */
  lemma {:induction false} Retrace(p: PBox, s: SBox, i: nat, xl: word, xr: word)
    requires i <= ROUNDS
    ensures var (l, r) := Forward(p, s, i, xl, xr);
            Backward(p, s, ROUNDS + 1, Xor(r, p[ROUNDS + 1]), Xor(l, p[ROUNDS]))
              == Backward(p, s, i + 1, Xor(xr, p[i + 1]), Xor(xl, p[i]))
    decreases ROUNDS - i
  {
    hide Tt, Xor;
    if i < ROUNDS {
      var l := Xor(xl, p[i]);
      var f := Tt(l, s);
      Retrace(p, s, i + 1, Xor(xr, f), l);
      XorCancels(l, p[i + 2]);
      XorExchanges(xr, f, p[i + 1]);
    }
  }

  lemma DecipherEncipher(p: PBox, s: SBox, xl: word, xr: word)
    ensures var (l, r) := Encipher(p, s, xl, xr); Decipher(p, s, l, r) == (xl, xr)
  {
    hide Tt, Xor, Forward;
    Retrace(p, s, 0, xl, xr);
    XorCancels(xl, p[0]);
    XorCancels(xr, p[1]);
  }

  function Reversed(p: PBox): PBox {
    seq(P_SIZE, i requires 0 <= i < P_SIZE => p[P_SIZE - 1 - i])
  }

  lemma {:induction false} BackwardIsForwardReversed(p: PBox, s: SBox, i: nat, xl: word, xr: word)
    requires 1 <= i <= ROUNDS + 1
    ensures Backward(p, s, i, xl, xr) == Forward(Reversed(p), s, ROUNDS + 1 - i, xl, xr)
  {
    hide Tt, Xor;
    if i > 1 {
      BackwardIsForwardReversed(p, s, i - 1, Xor(xr, Tt(Xor(xl, p[i]), s)), Xor(xl, p[i]));
    }
  }

  /** Deciphering is enciphering with the round keys in reverse. */
  lemma DecipherIsEncipherReversed(p: PBox, s: SBox, xl: word, xr: word)
    ensures Decipher(p, s, xl, xr) == Encipher(Reversed(p), s, xl, xr)
  {
    hide Tt, Xor, Forward, Backward;
    BackwardIsForwardReversed(p, s, ROUNDS + 1, xl, xr);
  }

  lemma EncipherDecipher(p: PBox, s: SBox, xl: word, xr: word)
    ensures var (l, r) := Decipher(p, s, xl, xr); Encipher(p, s, l, r) == (xl, xr)
  {
    hide Tt, Xor, Forward, Backward, Encipher, Decipher;
    DecipherIsEncipherReversed(p, s, xl, xr);
    var (l, r) := Decipher(p, s, xl, xr);
    assert Reversed(Reversed(p)) == p;
    DecipherIsEncipherReversed(Reversed(p), s, l, r);
    DecipherEncipher(Reversed(p), s, xl, xr);
  }

  // ---------------------------------------------------------------- byte strings and packets

  datatype Tables = Tables(p: PBox, s: SBox)
  datatype Direction = Encrypting | Decrypting

  function Opposite(d: Direction): Direction {
    if d == Encrypting then Decrypting else Encrypting
  }

  function Apply(d: Direction, t: Tables, xl: word, xr: word): Pair {
    match d
    case Encrypting => Encipher(t.p, t.s, xl, xr)
    case Decrypting => Decipher(t.p, t.s, xl, xr)
  }

  lemma ApplyInverse(d: Direction, t: Tables, xl: word, xr: word)
    ensures var (l, r) := Apply(d, t, xl, xr); Apply(Opposite(d), t, l, r) == (xl, xr)
  {
    hide Encipher, Decipher;
    if d == Encrypting {
      DecipherEncipher(t.p, t.s, xl, xr);
    } else {
      EncipherDecipher(t.p, t.s, xl, xr);
    }
  }

  function Block(d: Direction, t: Tables, b: seq<byte>): (r: seq<byte>)
    requires |b| == 8
    ensures |r| == 8
  {
    var (l, r) := Apply(d, t, WordOf(b[..4]), WordOf(b[4..]));
    PutWord(l) + PutWord(r)
  }

  lemma BlockInverse(d: Direction, t: Tables, b: seq<byte>)
    requires |b| == 8
    ensures Block(Opposite(d), t, Block(d, t, b)) == b
  {
    hide Apply, WordOf, PutWord;
    var (l, r) := Apply(d, t, WordOf(b[..4]), WordOf(b[4..]));
    var c := Block(d, t, b);
    assert c[..4] == PutWord(l) && c[4..] == PutWord(r);
    WordRoundTrip(l);
    WordRoundTrip(r);
    ApplyInverse(d, t, WordOf(b[..4]), WordOf(b[4..]));
    PutWordOfBytes(b[..4]);
    PutWordOfBytes(b[4..]);
    assert b == b[..4] + b[4..];
  }

  /** A block is two words, the left half first, and so is its ciphertext. */
  lemma BlockOfWords(t: Tables, xl: word, xr: word)
    ensures var (l, r) := Encipher(t.p, t.s, xl, xr);
            Block(Encrypting, t, PutWord(xl) + PutWord(xr)) == PutWord(l) + PutWord(r)
  {
    hide Encipher, WordOf, PutWord;
    var b := PutWord(xl) + PutWord(xr);
    assert b[..4] == PutWord(xl) && b[4..] == PutWord(xr);
    WordRoundTrip(xl);
    WordRoundTrip(xr);
  }

  /** Every whole eight-byte block on its own; a ragged tail stays as it is. */
  function Ecb(d: Direction, t: Tables, data: seq<byte>): (r: seq<byte>)
    ensures |r| == |data|
  {
    if |data| < 8 then data else Block(d, t, data[..8]) + Ecb(d, t, data[8..])
  }

  lemma {:induction false} EcbInverse(d: Direction, t: Tables, data: seq<byte>)
    ensures Ecb(Opposite(d), t, Ecb(d, t, data)) == data
  {
    hide Block;
    if |data| >= 8 {
      var first, rest := Block(d, t, data[..8]), Ecb(d, t, data[8..]);
      assert (first + rest)[..8] == first && (first + rest)[8..] == rest;
      BlockInverse(d, t, data[..8]);
      EcbInverse(d, t, data[8..]);
      assert data == data[..8] + data[8..];
    }
  }

  /** Every one of the whole blocks is transformed, each in its place and by itself. */
  lemma {:induction false} EcbBlocks(d: Direction, t: Tables, data: seq<byte>, i: nat)
    requires 8 * i + 8 <= |data|
    ensures Ecb(d, t, data)[8 * i..8 * i + 8] == Block(d, t, data[8 * i..8 * i + 8])
  {
    hide Block;
    if i > 0 {
      EcbBlocks(d, t, data[8..], i - 1);
      var rest, j := Ecb(d, t, data[8..]), 8 * i - 8;
      assert data[8..][j..j + 8] == data[8 * i..8 * i + 8];
      assert Ecb(d, t, data)[8 * i..8 * i + 8] == rest[j..j + 8];
    }
  }

  lemma {:induction false} EcbPrefix(d: Direction, t: Tables, data: seq<byte>, n: nat)
    requires n <= |data| && n % 8 == 0 && |data| - n < 8
    ensures Ecb(d, t, data) == Ecb(d, t, data[..n]) + data[n..]
  {
    hide Block;
    if |data| >= 8 {
      EcbPrefix(d, t, data[8..], n - 8);
      assert data[..n][..8] == data[..8] && data[..n][8..] == data[8..][..n - 8];
      assert data[8..][n - 8..] == data[n..];
    } else {
      assert data[..n] == [];
    }
  }

  lemma {:induction false} EcbTail(d: Direction, t: Tables, data: seq<byte>)
    ensures var n := |data| - |data| % 8; Ecb(d, t, data)[n..] == data[n..]
  {
    EcbPrefix(d, t, data, |data| - |data| % 8);
  }

  /** The number of bytes of a body that the packet methods hand to the block cipher. */
  function WholeBlocks(len: nat): (n: nat)
    ensures n == len - len % 8
  {
    var words := len / 4;
    assert words == 2 * (len / 8) + (if len % 8 >= 4 then 1 else 0);
    (words - words % 2) * 4
  }

  function CipherPacket(d: Direction, t: Tables, packet: seq<byte>, headerSize: nat): (r: seq<byte>)
    ensures |r| == |packet|
  {
    if |packet| <= headerSize then packet else packet[..headerSize] + Ecb(d, t, packet[headerSize..])
  }

  /** Decrypting a packet undoes encrypting it and the other way round, for every length and header size. */
  lemma PacketInverse(d: Direction, t: Tables, packet: seq<byte>, headerSize: nat)
    ensures CipherPacket(Opposite(d), t, CipherPacket(d, t, packet, headerSize), headerSize) == packet
  {
    hide Ecb;
    if |packet| > headerSize {
      var c := CipherPacket(d, t, packet, headerSize);
      assert c[..headerSize] == packet[..headerSize];
      assert c[headerSize..] == Ecb(d, t, packet[headerSize..]);
      EcbInverse(d, t, packet[headerSize..]);
    }
  }

  /** The header and the last (body length mod 8) bytes pass through untouched. */
  lemma PacketFrame(d: Direction, t: Tables, packet: seq<byte>, headerSize: nat)
    requires headerSize <= |packet|
    ensures var c := CipherPacket(d, t, packet, headerSize);
            var n := headerSize + WholeBlocks(|packet| - headerSize);
            c[..headerSize] == packet[..headerSize] && c[n..] == packet[n..]
  {
    EcbTail(d, t, packet[headerSize..]);
    var c := CipherPacket(d, t, packet, headerSize);
    var n := WholeBlocks(|packet| - headerSize);
    assert packet[headerSize..][n..] == packet[headerSize + n..];
    if |packet| > headerSize {
      assert c[headerSize..] == Ecb(d, t, packet[headerSize..]);
      assert c[headerSize + n..] == c[headerSize..][n..];
    }
  }

  /** Behind the header every whole block of eight bytes is enciphered. */
  lemma PacketBlocks(d: Direction, t: Tables, packet: seq<byte>, headerSize: nat, i: nat)
    requires headerSize + 8 * i + 8 <= |packet|
    ensures var at := headerSize + 8 * i;
            CipherPacket(d, t, packet, headerSize)[at..at + 8] == Block(d, t, packet[at..at + 8])
  {
    hide Ecb, Block;
    var body, c, at := packet[headerSize..], CipherPacket(d, t, packet, headerSize), headerSize + 8 * i;
    EcbBlocks(d, t, body, i);
    assert c[headerSize..] == Ecb(d, t, body);
    assert c[at..at + 8] == c[headerSize..][8 * i..8 * i + 8];
    assert packet[at..at + 8] == body[8 * i..8 * i + 8];
  }

  lemma {:induction false} ForwardIgnoresLast(p: PBox, q: PBox, s: SBox, i: nat, xl: word, xr: word)
    requires i <= ROUNDS && p[..ROUNDS] == q[..ROUNDS]
    ensures Forward(p, s, i, xl, xr) == Forward(q, s, i, xl, xr)
    decreases ROUNDS - i
  {
    hide Tt, Xor;
    if i < ROUNDS {
      assert p[i] == p[..ROUNDS][i] == q[..ROUNDS][i] == q[i];
      ForwardIgnoresLast(p, q, s, i + 1, Xor(xr, Tt(Xor(xl, p[i]), s)), Xor(xl, p[i]));
    }
  }

  /** Tables that differ from `t` in the last word of P only. */
  function WithLast(t: Tables, last: word): Tables {
    t.(p := t.p[ROUNDS + 1 := last])
  }

  /** Whatever a block holds, changing the last word of P alone can give its ciphertext any first word. */
  lemma BlockAtWill(t: Tables, b: seq<byte>, w: word) returns (last: word)
    requires |b| == 8
    ensures Block(Encrypting, WithLast(t, last), b)[..4] == PutWord(w)
  {
    hide Forward, WordOf, PutWord, Xor, Encipher;
    var xl, xr := WordOf(b[..4]), WordOf(b[4..]);
    var r := Forward(t.p, t.s, 0, xl, xr).1;
    last := Xor(r, w);
    ForwardIgnoresLast(t.p, WithLast(t, last).p, t.s, 0, xl, xr);
    XorRecovers(r, w);
    EncipherFirst(WithLast(t, last), xl, xr);
    var c := Block(Encrypting, WithLast(t, last), b);
    assert c[..4] == PutWord(Encipher(WithLast(t, last).p, t.s, xl, xr).0);
  }

  lemma EncipherFirst(t: Tables, xl: word, xr: word)
    ensures Encipher(t.p, t.s, xl, xr).0 == Xor(Forward(t.p, t.s, 0, xl, xr).1, t.p[ROUNDS + 1])
  {
    hide Xor, Forward;
  }

  /** So no part of a packet that starts a block can be relied on after encryption. */
  lemma PacketAtWill(t: Tables, packet: seq<byte>, headerSize: nat, w: word) returns (last: word)
    requires |packet| >= headerSize + 8
    ensures CipherPacket(Encrypting, WithLast(t, last), packet, headerSize)[headerSize..headerSize + 4] == PutWord(w)
  {
    hide Block, PutWord, WithLast;
    var body := packet[headerSize..];
    last := BlockAtWill(t, body[..8], w);
    EcbStep(Encrypting, WithLast(t, last), body);
    var c := CipherPacket(Encrypting, WithLast(t, last), packet, headerSize);
    assert c[headerSize..] == Ecb(Encrypting, WithLast(t, last), body);
    assert c[headerSize..headerSize + 4] == c[headerSize..][..4];
  }

  /** One block done: the rest of the text is enciphered on its own. */
  lemma EcbStep(d: Direction, t: Tables, rest: seq<byte>)
    ensures Ecb(d, t, rest) == if |rest| < 8 then rest else Block(d, t, rest[..8]) + Ecb(d, t, rest[8..])
  {
    hide Block;
  }

  // ---------------------------------------------------------------- keys

  type Key = k: seq<uint32> | |k| == 5 witness [0, 0, 0, 0, 0]

  function KeyBytes(k: Key): (s: seq<byte>)
    ensures |s| == KEY_SIZE
  {
    PutUint32(k[0]) + PutUint32(k[1]) + PutUint32(k[2]) + PutUint32(k[3]) + PutUint32(k[4])
  }

  /** Cut or zero-padded to twenty bytes. */
  function Fitted(s: seq<byte>): (r: seq<byte>)
    ensures |r| == KEY_SIZE
  {
    if |s| >= KEY_SIZE then s[..KEY_SIZE] else s + Zeros(KEY_SIZE - |s|)
  }

  function KeyOf(s: seq<byte>): Key {
    var b := Fitted(s);
    [Uint32(b[0..4]), Uint32(b[4..8]), Uint32(b[8..12]), Uint32(b[12..16]), Uint32(b[16..20])]
  }

  function Stripped(s: seq<byte>): (r: seq<byte>) {
    if s == [] || s[|s| - 1] != 0 then s else Stripped(s[..|s| - 1])
  }

  lemma {:induction false} StrippedPads(s: seq<byte>)
    ensures |Stripped(s)| <= |s| && s == Stripped(s) + Zeros(|s| - |Stripped(s)|)
    ensures Stripped(s) != [] ==> Stripped(s)[|Stripped(s)| - 1] != 0
  {
    if s != [] && s[|s| - 1] == 0 {
      StrippedPads(s[..|s| - 1]);
      assert s == s[..|s| - 1] + [0];
      assert Zeros(|s| - |Stripped(s)|) == Zeros(|s| - 1 - |Stripped(s)|) + [0];
    }
  }

  /** Reading a key back gives the bytes it was set from, cut or padded to twenty. */
  lemma KeyBytesOfKey(s: seq<byte>)
    ensures KeyBytes(KeyOf(s)) == Fitted(s)
  {
    hide Uint32, PutUint32, Fitted;
    var b := Fitted(s);
    PutUint32OfBytes(b[0..4]);
    PutUint32OfBytes(b[4..8]);
    PutUint32OfBytes(b[8..12]);
    PutUint32OfBytes(b[12..16]);
    PutUint32OfBytes(b[16..20]);
    assert b == b[0..4] + b[4..8] + b[8..12] + b[12..16] + b[16..20];
  }

  /** The key words are the little-endian words of the first twenty bytes, in order; missing bytes are zero. */
  lemma KeyWords(s: seq<byte>, i: nat)
    requires i < 5
    ensures KeyOf(s)[i] == Value(BitsOf(Fitted(s)[4 * i..4 * i + 4]))
    ensures |Fitted(s)| == 20 && forall j :: 0 <= j < 20 ==> Fitted(s)[j] == if j < |s| then s[j] else 0
  {
    hide BitsOf, Uint32, Value;
    FieldsAreLittleEndian([0, 0], Fitted(s)[4 * i..4 * i + 4]);
    if i == 0 {} else if i == 1 {} else if i == 2 {} else if i == 3 {} else { assert i == 4; }
  }

  lemma KeyOfKeyBytes(k: Key)
    ensures KeyOf(KeyBytes(k)) == k
  {
    hide Uint32, PutUint32;
    var b := KeyBytes(k);
    assert Fitted(b) == b;
    forall i | 0 <= i < 5
      ensures Uint32(PutUint32(k[i])) == k[i]
    {
      Uint32RoundTrip(k[i]);
    }
    assert b[0..4] == PutUint32(k[0]) && b[4..8] == PutUint32(k[1]) && b[8..12] == PutUint32(k[2]);
    assert b[12..16] == PutUint32(k[3]) && b[16..20] == PutUint32(k[4]);
  }

  /** Setting a key from its own string form, trailing zeros stripped, restores all five words. */
  lemma KeyOfItsString(k: Key)
    ensures KeyOf(Stripped(KeyBytes(k))) == k
  {
    StrippedPads(KeyBytes(k));
    assert Fitted(Stripped(KeyBytes(k))) == KeyBytes(k) == Fitted(KeyBytes(k));
    KeyOfKeyBytes(k);
  }

  /** The key after `n` rotations: its last word has grown by 2n modulo 2^32. */
  function Rotated(k: Key, n: nat): Key {
    k[4 := (k[4] + 2 * n) % TWO_TO_THE_32]
  }

  /** Rotation leaves sixteen of the twenty key bytes alone and adds two to the number in the last four. */
  lemma RotatedBytes(k: Key, n: nat)
    ensures KeyBytes(Rotated(k, n))[..16] == KeyBytes(k)[..16]
    ensures Value(BitsOf(KeyBytes(Rotated(k, n))[16..])) == (Value(BitsOf(KeyBytes(k)[16..])) + 2 * n) % 0x1_0000_0000
  {
    hide BitsOf, Value, PutUint32;
    WrittenFields(0, k[4]);
    WrittenFields(0, Rotated(k, n)[4]);
    assert KeyBytes(k)[16..] == PutUint32(k[4]);
    assert KeyBytes(Rotated(k, n))[16..] == PutUint32(Rotated(k, n)[4]);
  }

  // ---------------------------------------------------------------- the key schedule

  /** A digest with everything from its first zero byte on cleared. */
  function CutAtZero(hash: seq<byte>): (r: seq<byte>)
    ensures |r| == |hash|
    ensures forall i :: 0 <= i < |hash| ==> r[i] == if exists j :: 0 <= j <= i && hash[j] == 0 then 0 else hash[i]
  {
    if hash == [] then []
    else if hash[0] == 0 then Zeros(|hash|)
    else [hash[0]] + CutAtZero(hash[1..])
  }

  function SignExtended(b: byte): word {
    if b & 0x80 != 0 then (b as word) | 0xFFFF_FF00 else b as word
  }

  /** `(data << 8) | uint32(int32(int8(b)))`. */
  function Absorb(data: word, b: byte): word {
    (data << 8) | SignExtended(b)
  }

  /** The first `k` of four digest bytes, sign-extended and shifted together, from 4i modulo sixteen on. */
  function Absorbed(hash: seq<byte>, i: nat, k: nat): word
    requires |hash| == HASH_SIZE
  {
    if k == 0 then 0 else Absorb(Absorbed(hash, i, k - 1), hash[(4 * i + k - 1) % HASH_SIZE])
  }

  function HashWord(hash: seq<byte>, i: nat): word
    requires |hash| == HASH_SIZE
  {
    Absorbed(hash, i, 4)
  }

  function BaseP(base: BaseTable): PBox {
    seq(P_SIZE, i requires 0 <= i < P_SIZE => WordOf(base[4 * i..4 * i + 4]))
  }

  function BaseS(base: BaseTable): SBox {
    seq(S_SIZE, i requires 0 <= i < S_SIZE => WordOf(base[4 * P_SIZE + 4 * i..4 * P_SIZE + 4 * i + 4]))
  }

  function MixedP(base: BaseTable, hash: seq<byte>): PBox
    requires |hash| == HASH_SIZE
  {
    seq(P_SIZE, i requires 0 <= i < P_SIZE => Xor(BaseP(base)[i], HashWord(hash, i)))
  }

  predicate TopBit(b: byte) {
    b >= 0x80
  }

  /**
   The word gathered from four digest bytes, by its bytes: the last digest byte
   lowest, and above it the others, each wiped out to 0xFF by a top bit set in
   any that was gathered after it.
   */
  lemma GatheredBytes(hash: seq<byte>, i: nat)
    requires |hash| == 16
    ensures var g := PutWord(HashWord(hash, i));
            var b0, b1 := hash[4 * i % 16], hash[(4 * i + 1) % 16];
            var b2, b3 := hash[(4 * i + 2) % 16], hash[(4 * i + 3) % 16];
            && g[0] == b3
            && g[1] == (if TopBit(b3) then 0xFF else b2)
            && g[2] == (if TopBit(b3) || TopBit(b2) then 0xFF else b1)
            && g[3] == (if TopBit(b3) || TopBit(b2) || TopBit(b1) then 0xFF else b0)
  {
    hide Absorb, PutWord;
    var b0, b1 := hash[4 * i % 16], hash[(4 * i + 1) % 16];
    var b2, b3 := hash[(4 * i + 2) % 16], hash[(4 * i + 3) % 16];
    assert Absorbed(hash, i, 0) == 0;
    assert Absorbed(hash, i, 1) == Absorb(0, b0);
    assert Absorbed(hash, i, 2) == Absorb(Absorb(0, b0), b1);
    assert Absorbed(hash, i, 3) == Absorb(Absorb(Absorb(0, b0), b1), b2);
    AbsorbOne(0, b0);
    AbsorbOne(Absorbed(hash, i, 1), b1);
    AbsorbOne(Absorbed(hash, i, 2), b2);
    AbsorbOne(Absorbed(hash, i, 3), b3);
  }

  lemma AbsorbOne(w: word, b: byte)
    ensures var s, t := PutWord(w), PutWord(Absorb(w, b));
            && t[0] == b && t[1] == (if TopBit(b) then 0xFF else s[0])
            && t[2] == (if TopBit(b) then 0xFF else s[1]) && t[3] == (if TopBit(b) then 0xFF else s[2])
  {
    hide Absorb;
    AbsorbByCases(w, b);
    if TopBit(b) {
      AbsorbHigh(w, b, Absorb(w, b));
    } else {
      AbsorbLow(w, b, Absorb(w, b));
    }
  }

  lemma AbsorbByCases(w: word, b: byte)
    ensures Absorb(w, b) == if TopBit(b) then (w << 8) | ((b as word) | 0xFFFF_FF00) else (w << 8) | (b as word)
  {
    assert b >= 0x80 <==> b & 0x80 != 0;
  }

  lemma AbsorbHigh(w: word, b: byte, x: word)
    requires x == (w << 8) | ((b as word) | 0xFFFF_FF00)
    ensures (x & 0xFF) as byte == b && ((x >> 8) & 0xFF) as byte == 0xFF
    ensures ((x >> 16) & 0xFF) as byte == 0xFF && ((x >> 24) & 0xFF) as byte == 0xFF
  {
  }

  lemma AbsorbLow(w: word, b: byte, x: word)
    requires x == (w << 8) | (b as word)
    ensures (x & 0xFF) as byte == b && ((x >> 8) & 0xFF) as byte == (w & 0xFF) as byte
    ensures ((x >> 16) & 0xFF) as byte == ((w >> 8) & 0xFF) as byte
    ensures ((x >> 24) & 0xFF) as byte == ((w >> 16) & 0xFF) as byte
  {
  }

  /** The digest as the schedule uses it: everything from its first zero byte on is zero. */
  predicate IsCutDigest(digest: seq<byte>, hash: seq<byte>) {
    && |hash| == |digest| == 16
    && forall i :: 0 <= i < 16 ==> hash[i] == if exists j :: 0 <= j <= i && digest[j] == 0 then 0 else digest[i]
  }

  /** The tables that the schedule starts from: the constant dump, P mixed with the gathered words of the cut digest. */
  lemma InitialTablesExactly(env: Env, k: Key) returns (hash: seq<byte>)
    ensures IsCutDigest(env.md5(KeyBytes(k)), hash)
    ensures var t := InitialTables(env, k);
            && (forall i :: 0 <= i < 18 ==> PutWord(t.p[i] ^ HashWord(hash, i)) == env.subKey[4 * i..4 * i + 4])
            && (forall i :: 0 <= i < 1024 ==> PutWord(t.s[i]) == env.subKey[72 + 4 * i..76 + 4 * i])
  {
    hide HashWord, PutWord, BaseP, BaseS, MixedP;
    hash := KeyHash(env, k);
    forall i | 0 <= i < 18
      ensures PutWord(InitialTables(env, k).p[i] ^ HashWord(hash, i)) == env.subKey[4 * i..4 * i + 4]
    {
      MixedBytes(env.subKey, hash, i);
    }
    forall i | 0 <= i < 1024
      ensures PutWord(InitialTables(env, k).s[i]) == env.subKey[72 + 4 * i..76 + 4 * i]
    {
      BaseBytes(env.subKey, i);
    }
  }

  lemma MixedBytes(base: BaseTable, hash: seq<byte>, i: nat)
    requires |hash| == 16 && i < 18
    ensures PutWord(MixedP(base, hash)[i] ^ HashWord(hash, i)) == base[4 * i..4 * i + 4]
  {
    hide HashWord, PutWord, WordOf;
    XorCancels(BaseP(base)[i], HashWord(hash, i));
    PutWordOfBytes(base[4 * i..4 * i + 4]);
  }

  lemma BaseBytes(base: BaseTable, i: nat)
    requires i < 1024
    ensures PutWord(BaseS(base)[i]) == base[72 + 4 * i..76 + 4 * i]
  {
    hide PutWord, WordOf;
    PutWordOfBytes(base[72 + 4 * i..76 + 4 * i]);
  }

  datatype Filling = Filling(t: Tables, data: Pair)

  /** Overwrites the pairs of P from pair `h` on with the running block, each enciphered with what P is by then. */
  function FillP(f: Filling, h: nat): Filling
    requires h <= P_PAIRS
    decreases P_PAIRS - h, f
  {
    if h == P_PAIRS then f else FillP(NextP(f, h), h + 1)
  }

  function NextP(f: Filling, h: nat): Filling
    requires h < P_PAIRS
  {
    var data := Encipher(f.t.p, f.t.s, f.data.0, f.data.1);
    Filling(f.t.(p := f.t.p[2 * h := data.0][2 * h + 1 := data.1]), data)
  }

  function FillS(f: Filling, h: nat): Filling
    requires h <= S_PAIRS
    decreases S_PAIRS - h, f
  {
    if h == S_PAIRS then f else FillS(NextS(f, h), h + 1)
  }

  function NextS(f: Filling, h: nat): Filling
    requires h < S_PAIRS
  {
    var data := Encipher(f.t.p, f.t.s, f.data.0, f.data.1);
    Filling(f.t.(s := f.t.s[2 * h := data.0][2 * h + 1 := data.1]), data)
  }

  function KeyHash(env: Env, k: Key): (hash: seq<byte>)
    ensures |hash| == HASH_SIZE
  {
    CutAtZero(env.md5(KeyBytes(k)))
  }

  function InitialTables(env: Env, k: Key): Tables {
    Tables(MixedP(env.subKey, KeyHash(env, k)), BaseS(env.subKey))
  }

  /** The tables of a key. */
  function KeyTables(env: Env, k: Key): Tables {
    FillS(FillP(Filling(InitialTables(env, k), (0, 0)), 0), 0).t
  }

  // What the schedule achieves, without reference to its loops: each pair of a
  // finished table is the pair before it, enciphered under the finished part so
  // far followed by the unfinished rest.

  function PairBefore(s: seq<word>, h: nat, first: Pair): Pair
    requires 2 * h <= |s|
  {
    if h == 0 then first else (s[2 * h - 2], s[2 * h - 1])
  }

  predicate PIsSelfEnciphered(p: PBox, p0: PBox, s: SBox, h: nat)
    requires h < 9
  {
    var (l, r) := PairBefore(p, h, (0, 0));
    (p[2 * h], p[2 * h + 1]) == Encipher(p[..2 * h] + p0[2 * h..], s, l, r)
  }

  predicate SIsSelfEnciphered(p: PBox, s: SBox, s0: SBox, h: nat)
    requires h < 512
  {
    var (l, r) := PairBefore(s, h, (p[P_SIZE - 2], p[P_SIZE - 1]));
    (s[2 * h], s[2 * h + 1]) == Encipher(p, s[..2 * h] + s0[2 * h..], l, r)
  }

  lemma NextPIsSelfEnciphered(f: Filling, p0: PBox, h: nat, p: PBox)
    requires h < P_PAIRS && f.t.p[2 * h..] == p0[2 * h..] && f.data == PairBefore(f.t.p, h, (0, 0))
    requires p[..2 * h + 2] == NextP(f, h).t.p[..2 * h + 2]
    ensures PIsSelfEnciphered(p, p0, f.t.s, h) && p[..2 * h] == f.t.p[..2 * h]
  {
    hide Encipher;
    var next, i := NextP(f, h), 2 * h;
    assert p[..i] == p[..i + 2][..i] == next.t.p[..i + 2][..i] == f.t.p[..i];
    assert f.t.p == p[..i] + p0[i..];
    assert p[i] == p[..i + 2][i] && p[i + 1] == p[..i + 2][i + 1];
    if h > 0 {
      assert p[i - 2] == p[..i][i - 2] && p[i - 1] == p[..i][i - 1];
    }
  }

  lemma NextPContinues(f: Filling, p0: PBox, h: nat)
    requires h < P_PAIRS && f.t.p[2 * h..] == p0[2 * h..]
    ensures var next := NextP(f, h);
            next.t.p[2 * (h + 1)..] == p0[2 * (h + 1)..] && next.data == PairBefore(next.t.p, h + 1, (0, 0))
              && next.t.s == f.t.s
  {
    hide Encipher;
    var i := 2 * h;
    assert NextP(f, h).t.p[i + 2..] == f.t.p[i..][2..] == p0[i + 2..];
  }

  lemma {:induction false} FillPIsSelfEnciphered(f: Filling, p0: PBox, h: nat)
    requires h <= P_PAIRS && f.t.p[2 * h..] == p0[2 * h..] && f.data == PairBefore(f.t.p, h, (0, 0))
    ensures var g := FillP(f, h);
            && g.t.s == f.t.s && g.t.p[..2 * h] == f.t.p[..2 * h]
            && g.data == PairBefore(g.t.p, P_PAIRS, (0, 0))
            && forall k :: h <= k < P_PAIRS ==> PIsSelfEnciphered(g.t.p, p0, f.t.s, k)
    decreases P_PAIRS - h
  {
    hide Encipher, NextP, PIsSelfEnciphered;
    if h < P_PAIRS {
      NextPContinues(f, p0, h);
      FillPIsSelfEnciphered(NextP(f, h), p0, h + 1);
      NextPIsSelfEnciphered(f, p0, h, FillP(f, h).t.p);
    }
  }

  lemma NextSIsSelfEnciphered(f: Filling, s0: SBox, h: nat, s: SBox)
    requires h < S_PAIRS && f.t.s[2 * h..] == s0[2 * h..]
    requires f.data == PairBefore(f.t.s, h, (f.t.p[P_SIZE - 2], f.t.p[P_SIZE - 1]))
    requires s[..2 * h + 2] == NextS(f, h).t.s[..2 * h + 2]
    ensures SIsSelfEnciphered(f.t.p, s, s0, h) && s[..2 * h] == f.t.s[..2 * h]
  {
    hide Encipher;
    var next, i := NextS(f, h), 2 * h;
    assert s[..i] == s[..i + 2][..i] == next.t.s[..i + 2][..i] == f.t.s[..i];
    assert f.t.s == s[..i] + s0[i..];
    assert s[i] == s[..i + 2][i] && s[i + 1] == s[..i + 2][i + 1];
    if h > 0 {
      assert s[i - 2] == s[..i][i - 2] && s[i - 1] == s[..i][i - 1];
    }
  }

  lemma NextSContinues(f: Filling, s0: SBox, h: nat)
    requires h < S_PAIRS && f.t.s[2 * h..] == s0[2 * h..]
    ensures var next := NextS(f, h);
            && next.t.s[2 * (h + 1)..] == s0[2 * (h + 1)..] && next.t.p == f.t.p
            && next.data == PairBefore(next.t.s, h + 1, (f.t.p[P_SIZE - 2], f.t.p[P_SIZE - 1]))
  {
    hide Encipher;
    var i := 2 * h;
    assert NextS(f, h).t.s[i + 2..] == f.t.s[i..][2..] == s0[i + 2..];
  }

  lemma {:induction false} FillSIsSelfEnciphered(f: Filling, s0: SBox, h: nat)
    requires h <= S_PAIRS && f.t.s[2 * h..] == s0[2 * h..]
    requires f.data == PairBefore(f.t.s, h, (f.t.p[P_SIZE - 2], f.t.p[P_SIZE - 1]))
    ensures var g := FillS(f, h);
            && g.t.p == f.t.p && g.t.s[..2 * h] == f.t.s[..2 * h]
            && forall k :: h <= k < S_PAIRS ==> SIsSelfEnciphered(f.t.p, g.t.s, s0, k)
    decreases S_PAIRS - h
  {
    hide Encipher, NextS, SIsSelfEnciphered;
    if h < S_PAIRS {
      NextSContinues(f, s0, h);
      FillSIsSelfEnciphered(NextS(f, h), s0, h + 1);
      NextSIsSelfEnciphered(f, s0, h, FillS(f, h).t.s);
    }
  }

  /** Every pair of both finished tables is accounted for. */
  lemma ScheduleIsSelfEnciphered(env: Env, k: Key)
    ensures var t0, t := InitialTables(env, k), KeyTables(env, k);
            && (forall h :: 0 <= h < 9 ==> PIsSelfEnciphered(t.p, t0.p, t0.s, h))
            && (forall h :: 0 <= h < 512 ==> SIsSelfEnciphered(t.p, t.s, t0.s, h))
  {
    hide Encipher, FillP, FillS, PIsSelfEnciphered, SIsSelfEnciphered, InitialTables;
    var t0 := InitialTables(env, k);
    FillPIsSelfEnciphered(Filling(t0, (0, 0)), t0.p, 0);
    FillSIsSelfEnciphered(FillP(Filling(t0, (0, 0)), 0), t0.s, 0);
  }
}
