/** The cipher object: key, digest and tables in place, proved against `CipherSpec`. */
module Cipher {
  import opened Bytes
  import opened CipherSpec

  datatype Status = Waiting | Sent | Accepted | PendingZone

  class Blowfish {
    const env: Env
    const Key: array<uint32>
    const Hash: array<byte>
    const P: array<word>
    const S: array<word>
    var status: Status

    ghost predicate Valid() {
      Key.Length == 5 && Hash.Length == HASH_SIZE && P.Length == P_SIZE && S.Length == S_SIZE && P != S
    }

    ghost function KeyNow(): CipherSpec.Key
      requires Valid()
      reads Key
    {
      Key[..]
    }

    ghost function TablesNow(): Tables
      requires Valid()
      reads P, S
    {
      Tables(P[..], S[..])
    }

    /** The tables and the digest are those of the key. */
    ghost predicate Keyed()
      requires Valid()
      reads Key, Hash, P, S
    {
      Hash[..] == KeyHash(env, KeyNow()) && TablesNow() == KeyTables(env, KeyNow())
    }

    /** A zeroed object that still has to be given a key and initialised. */
    constructor Blank(env: Env, key: CipherSpec.Key, status: Status)
      ensures Valid() && fresh(Key) && fresh(Hash) && fresh(P) && fresh(S)
      ensures this.env == env && KeyNow() == key && this.status == status
    {
      this.env := env;
      this.status := status;
      Key := new uint32[5](i requires 0 <= i < 5 => key[i]);
      Hash := new byte[HASH_SIZE](_ => 0);
      P := new word[P_SIZE](_ => 0);
      S := new word[S_SIZE](_ => 0);
    }

    constructor FromKeyBytes(env: Env, sessionKey: seq<byte>)
      ensures Valid() && fresh(Key) && fresh(Hash) && fresh(P) && fresh(S)
      ensures this.env == env && KeyNow() == KeyOf(sessionKey) && Keyed() && status == Waiting
    {
      hide KeyTables, KeyHash, KeyOf;
      this.env := env;
      status := Waiting;
      Key := new uint32[5](_ => 0);
      Hash := new byte[HASH_SIZE](_ => 0);
      P := new word[P_SIZE](_ => 0);
      S := new word[S_SIZE](_ => 0);
      new;
      SetKeyBytes(sessionKey);
      InitBlowfish();
    }

    method SetKeyBytes(key: seq<byte>)
      requires Valid()
      modifies Key
      ensures KeyNow() == KeyOf(key)
    {
      hide Uint32;
      for i := 0 to 5
        invariant forall j :: 0 <= j < i ==> Key[j] == 0
      {
        Key[i] := 0;
      }
      if |key| == 0 {
        EmptyKey(key);
        return;
      }
      var keyBytes := Fitted(key);
      for i := 0 to 5
        invariant forall j :: 0 <= j < i ==> Key[j] == Uint32(keyBytes[4 * j..4 * j + 4])
      {
        var offset := i * 4;
        Key[i] := Uint32(keyBytes[offset..offset + 4]);
      }
    }

    lemma EmptyKey(key: seq<byte>)
      requires |key| == 0
      ensures KeyOf(key) == [0, 0, 0, 0, 0]
    {
      var b := Fitted(key);
      assert b[0..4] == b[4..8] == b[8..12] == b[12..16] == b[16..20] == [0, 0, 0, 0];
    }

    method GetKeyBytes() returns (keyBytes: seq<byte>)
      requires Valid()
      ensures keyBytes == KeyBytes(KeyNow())
    {
      hide PutUint32;
      keyBytes := [];
      for i := 0 to 5
        invariant i == 0 ==> keyBytes == []
        invariant i == 1 ==> keyBytes == PutUint32(Key[0])
        invariant i == 2 ==> keyBytes == PutUint32(Key[0]) + PutUint32(Key[1])
        invariant i == 3 ==> keyBytes == PutUint32(Key[0]) + PutUint32(Key[1]) + PutUint32(Key[2])
        invariant i == 4 ==> keyBytes == PutUint32(Key[0]) + PutUint32(Key[1]) + PutUint32(Key[2]) + PutUint32(Key[3])
        invariant i == 5 ==> keyBytes == KeyBytes(KeyNow())
      {
        keyBytes := keyBytes + PutUint32(Key[i]);
      }
    }

    method GetKeyAsString() returns (s: seq<byte>)
      requires Valid()
      ensures s == Stripped(KeyBytes(KeyNow()))
    {
      hide PutUint32;
      var allZero := true;
      for i := 0 to 5
        invariant allZero <==> forall j :: 0 <= j < i ==> Key[j] == 0
      {
        if Key[i] != 0 {
          allZero := false;
          break;
        }
      }
      if allZero {
        ZeroKeyIsEmpty(KeyNow());
        return [];
      }
      var keyBytes := GetKeyBytes();
      NonZeroKeyIsNot(KeyNow());
      var length := KEY_SIZE;
      var i := KEY_SIZE - 1;
      assert keyBytes[..KEY_SIZE] == keyBytes;
      while i >= 0
        invariant -1 <= i < KEY_SIZE && length == KEY_SIZE
        invariant forall j :: i < j < KEY_SIZE ==> keyBytes[j] == 0
        invariant Stripped(keyBytes) == Stripped(keyBytes[..i + 1])
      {
        if keyBytes[i] != 0 {
          length := i + 1;
          break;
        }
        assert keyBytes[..i + 1][..i] == keyBytes[..i];
        i := i - 1;
      }
      return keyBytes[..length];
    }

    lemma ZeroKeyIsEmpty(k: CipherSpec.Key)
      requires forall j :: 0 <= j < 5 ==> k[j] == 0
      ensures Stripped(KeyBytes(k)) == []
    {
      assert PutUint32(0) == [0, 0, 0, 0];
      assert KeyBytes(k) == Zeros(KEY_SIZE);
      ZerosStripToNothing(KEY_SIZE);
    }

    lemma {:induction false} ZerosStripToNothing(n: nat)
      ensures Stripped(Zeros(n)) == []
    {
      if n > 0 {
        assert Zeros(n)[..n - 1] == Zeros(n - 1);
        ZerosStripToNothing(n - 1);
      }
    }

    lemma NonZeroKeyIsNot(k: CipherSpec.Key)
      requires exists j :: 0 <= j < 5 && k[j] != 0
      ensures exists j :: 0 <= j < KEY_SIZE && KeyBytes(k)[j] != 0
    {
      hide PutUint32, Uint32, KeyBytes;
      KeyOfKeyBytes(k);
      EmptyKey([]);
      assert Fitted([]) == Zeros(KEY_SIZE);
      assert Fitted(KeyBytes(k)) == KeyBytes(k);
      assert KeyBytes(k) != Zeros(KEY_SIZE);
    }

    /** Whatever the tables and the digest held before, they become those of the key. */
    method InitBlowfish()
      requires Valid()
      modifies Hash, P, S
      ensures Keyed()
    {
      hide CutAtZero, KeyBytes, FillP, FillS, MixedP, BaseS;
      var keyBytes := GetKeyBytes();
      var digest := env.md5(keyBytes);
      for i := 0 to HASH_SIZE
        invariant Hash[..i] == digest[..i]
      {
        Hash[i] := digest[i];
      }
      CutDigest(digest);
      InitializeSubkeys();
    }

    /** Clears the digest from its first zero byte on. */
    method CutDigest(ghost digest: seq<byte>)
      requires Valid() && Hash[..] == digest
      modifies Hash
      ensures Hash[..] == CutAtZero(digest)
    {
      for i := 0 to HASH_SIZE
        invariant Hash[..] == digest && forall j :: 0 <= j < i ==> digest[j] != 0
      {
        if Hash[i] == 0 {
          for j := i to HASH_SIZE
            invariant forall k :: 0 <= k < HASH_SIZE ==> Hash[k] == if i <= k < j then 0 else digest[k]
          {
            Hash[j] := 0;
          }
          assert Hash[..] == CutAtZero(digest);
          return;
        }
      }
      assert Hash[..] == CutAtZero(digest);
    }

    method InitializeSubkeys()
      requires Valid()
      modifies P, S
      ensures TablesNow()
        == FillS(FillP(Filling(Tables(MixedP(env.subKey, Hash[..]), BaseS(env.subKey)), (0, 0)), 0), 0).t
    {
      hide Encipher, FillP, FillS, MixedP, BaseP, BaseS, HashWord, Xor;
      CopyBase();
      MixHash();
      var datal: word, datar: word := 0, 0;
      ghost var start := Filling(TablesNow(), (0, 0));
      for h := 0 to P_PAIRS
        invariant FillP(start, 0) == FillP(Filling(TablesNow(), (datal, datar)), h)
      {
        var i := 2 * h;
        ghost var before := Filling(TablesNow(), (datal, datar));
        FillPStep(before, h);
        datal, datar := EncipherBlock(datal, datar);
        P[i] := datal;
        P[i + 1] := datar;
        assert Filling(TablesNow(), (datal, datar)) == NextP(before, h);
      }
      FillPStep(Filling(TablesNow(), (datal, datar)), P_PAIRS);
      ghost var middle := Filling(TablesNow(), (datal, datar));
      for h := 0 to S_PAIRS
        invariant FillS(middle, 0) == FillS(Filling(TablesNow(), (datal, datar)), h)
      {
        var i := 2 * h;
        ghost var before := Filling(TablesNow(), (datal, datar));
        FillSStep(before, h);
        datal, datar := EncipherBlock(datal, datar);
        S[i] := datal;
        S[i + 1] := datar;
        assert Filling(TablesNow(), (datal, datar)) == NextS(before, h);
      }
      FillSStep(Filling(TablesNow(), (datal, datar)), S_PAIRS);
    }

    lemma FillPStep(f: Filling, h: nat)
      requires h <= P_PAIRS
      ensures FillP(f, h) == if h == P_PAIRS then f else FillP(NextP(f, h), h + 1)
    {
    }

    lemma FillSStep(f: Filling, h: nat)
      requires h <= S_PAIRS
      ensures FillS(f, h) == if h == S_PAIRS then f else FillS(NextS(f, h), h + 1)
    {
    }

    method CopyBase()
      requires Valid()
      modifies P, S
      ensures P[..] == BaseP(env.subKey) && S[..] == BaseS(env.subKey)
    {
      hide WordOf;
      for i := 0 to P_SIZE
        invariant forall j :: 0 <= j < i ==> P[j] == BaseP(env.subKey)[j]
      {
        var start := i * 4;
        P[i] := WordOf(env.subKey[start..start + 4]);
      }
      assert P[..] == BaseP(env.subKey);
      var offset := P_SIZE * 4;
      for i := 0 to S_SIZE
        invariant P[..] == BaseP(env.subKey)
        invariant forall j :: 0 <= j < i ==> S[j] == BaseS(env.subKey)[j]
      {
        var start := offset + i * 4;
        S[i] := WordOf(env.subKey[start..start + 4]);
      }
    }

    method MixHash()
      requires Valid() && P[..] == BaseP(env.subKey)
      modifies P
      ensures P[..] == MixedP(env.subKey, Hash[..])
    {
      hide Xor, BaseP, Absorbed, MixedP;
      ghost var base, hash := BaseP(env.subKey), Hash[..];
      var j := 0;
      for i := 0 to P_SIZE
        invariant j == 4 * i % HASH_SIZE
        invariant forall n :: 0 <= n < P_SIZE ==> P[n] == if n < i then MixedP(env.subKey, hash)[n] else base[n]
      {
        var data: word;
        data, j := GatherWord(i, j);
        MixedPAt(env.subKey, hash, i);
        P[i] := Xor(P[i], data);
      }
    }

    /** Four digest bytes from position `j` on, and the position after them. */
    method GatherWord(ghost i: nat, j0: nat) returns (data: word, j: nat)
      requires Valid() && j0 == 4 * i % HASH_SIZE
      ensures data == Absorbed(Hash[..], i, 4) && j == (4 * i + 4) % HASH_SIZE
      ensures var g, b1 := PutWord(data), Hash[(4 * i + 1) % 16];
              var b2, b3 := Hash[(4 * i + 2) % 16], Hash[(4 * i + 3) % 16];
              && g[0] == b3 && g[1] == (if TopBit(b3) then 0xFF else b2)
              && g[2] == (if TopBit(b3) || TopBit(b2) then 0xFF else b1)
              && g[3] == (if TopBit(b3) || TopBit(b2) || TopBit(b1) then 0xFF else Hash[4 * i % 16])
    {
      hide Absorb, Absorbed, PutWord, TopBit;
      GatheredBytes(Hash[..], i);
      data, j := 0, j0;
      AbsorbedStep(Hash[..], i, 0);
      for k := 0 to 4
        invariant j == (4 * i + k) % HASH_SIZE
        invariant data == Absorbed(Hash[..], i, k)
      {
        AbsorbedStep(Hash[..], i, k + 1);
        data := Absorb(data, Hash[j]);
        j := j + 1;
        if j >= HASH_SIZE {
          j := 0;
        }
        NextPosition(4 * i + k);
      }
    }

    lemma NextPosition(n: nat)
      ensures (n + 1) % HASH_SIZE == if n % HASH_SIZE == HASH_SIZE - 1 then 0 else n % HASH_SIZE + 1
    {
    }

    lemma AbsorbedStep(hash: seq<byte>, i: nat, k: nat)
      requires |hash| == HASH_SIZE
      ensures Absorbed(hash, i, k) == if k == 0 then 0
        else Absorb(Absorbed(hash, i, k - 1), hash[(4 * i + k - 1) % HASH_SIZE])
    {
      hide Absorb;
    }

    lemma MixedPAt(base: BaseTable, hash: seq<byte>, i: nat)
      requires |hash| == HASH_SIZE && i < P_SIZE
      ensures MixedP(base, hash)[i] == Xor(BaseP(base)[i], Absorbed(hash, i, 4))
    {
      hide Xor, Absorbed, BaseP;
    }

    /** Moves on to the next key: its last word grows by two, and everything else follows. */
    method IncrementKey()
      requires Valid()
      modifies Key, Hash, P, S
      ensures KeyNow() == Rotated(old(KeyNow()), 1) && Keyed()
    {
      hide KeyTables, KeyHash;
      Key[4] := (Key[4] + 2) % TWO_TO_THE_32;
      InitBlowfish();
    }

    method EncipherBlock(xl: word, xr: word) returns (l: word, r: word)
      requires Valid()
      ensures (l, r) == Encipher(P[..], S[..], xl, xr)
      ensures forall trace: seq<Pair> :: SixteenRounds(P[..], S[..], trace) && trace[0] == (xl, xr) ==>
                EndsIn(P[..], trace, (l, r))
    {
      hide Tt, Xor, SixteenRounds, EndsIn;
      l, r := xl, xr;
      ghost var p: PBox, s: SBox := P[..], S[..];
      for i := 0 to ROUNDS
        invariant Forward(p, s, 0, xl, xr) == Forward(p, s, i, l, r)
      {
        l := Xor(l, P[i]);
        r := Xor(r, Tt(l, S[..]));
        l, r := r, l;
      }
      l, r := r, l;
      r := Xor(r, P[ROUNDS]);
      l := Xor(l, P[ROUNDS + 1]);
      RoundsLeadHere(p, s, xl, xr);
    }

    lemma RoundsLeadHere(p: PBox, s: SBox, xl: word, xr: word)
      ensures forall trace: seq<Pair> :: SixteenRounds(p, s, trace) && trace[0] == (xl, xr) ==>
                EndsIn(p, trace, Encipher(p, s, xl, xr))
    {
      hide Encipher, EndsIn;
      forall trace: seq<Pair> | SixteenRounds(p, s, trace) && trace[0] == (xl, xr)
        ensures EndsIn(p, trace, Encipher(p, s, xl, xr))
      {
        EncipherIsSixteenRounds(p, s, trace);
      }
    }

    method DecipherBlock(xl: word, xr: word) returns (l: word, r: word)
      requires Valid()
      ensures (l, r) == Decipher(P[..], S[..], xl, xr)
      ensures Encipher(P[..], S[..], l, r) == (xl, xr)
    {
      hide Tt, Xor;
      l, r := xl, xr;
      ghost var p: PBox, s: SBox := P[..], S[..];
      var i := ROUNDS + 1;
      while i > 1
        invariant 1 <= i <= ROUNDS + 1
        invariant Backward(p, s, ROUNDS + 1, xl, xr) == Backward(p, s, i, l, r)
      {
        l := Xor(l, P[i]);
        r := Xor(r, Tt(l, S[..]));
        l, r := r, l;
        i := i - 1;
      }
      l, r := r, l;
      r := Xor(r, P[1]);
      l := Xor(l, P[0]);
      EncipherDecipher(p, s, xl, xr);
    }

    /** The text so far: what lies around the slice, and in it what is done and what is left. */
    ghost predicate InParts(data: seq<byte>, front: seq<byte>, done: seq<byte>, rest: seq<byte>, back: seq<byte>) {
      data == front + done + rest + back
    }

    lemma NextBlock(d: Direction, t: Tables, data: seq<byte>, front: seq<byte>, done: seq<byte>, rest: seq<byte>,
                    back: seq<byte>)
      requires InParts(data, front, done, rest, back) && |rest| >= 8
      ensures var at, block := |front| + |done|, Block(d, t, rest[..8]);
              && at + 8 <= |data| && data[at..at + 8] == rest[..8]
              && InParts(data[..at] + block + data[at + 8..], front, done + block, rest[8..], back)
              && done + Ecb(d, t, rest) == (done + block) + Ecb(d, t, rest[8..])
    {
      hide Block;
    }

    lemma Start(d: Direction, t: Tables, data: seq<byte>, lo: nat, hi: nat)
      requires lo <= hi <= |data|
      ensures InParts(data, data[..lo], [], data[lo..hi], data[hi..])
      ensures Ecb(d, t, data[lo..hi]) == [] + Ecb(d, t, data[lo..hi])
    {
    }

    lemma Finish(d: Direction, t: Tables, data: seq<byte>, front: seq<byte>, done: seq<byte>, rest: seq<byte>,
                 back: seq<byte>)
      requires InParts(data, front, done, rest, back) && |rest| < 8
      ensures var n := |front| + |done| + |rest|;
              && n <= |data| && data[..|front|] == front && data[n..] == back
              && data[|front|..n] == done + Ecb(d, t, rest)
    {
      assert front + done + rest + back == front + (done + rest) + back;
    }

    method EncryptBlockAt(data: array<byte>, at: nat)
      requires Valid() && at + 8 <= data.Length
      modifies data
      ensures var before := old(data[..]);
              data[..] == before[..at] + Block(Encrypting, TablesNow(), before[at..at + 8]) + before[at + 8..]
    {
      hide Encipher, WordOf, PutWord;
      assert data[..][at..at + 8][..4] == data[at..at + 4] && data[..][at..at + 8][4..] == data[at + 4..at + 8];
      var xl := WordOf(data[at..at + 4]);
      var xr := WordOf(data[at + 4..at + 8]);
      xl, xr := EncipherBlock(xl, xr);
      PutBlock(data, at, PutWord(xl) + PutWord(xr));
    }

    method DecryptBlockAt(data: array<byte>, at: nat)
      requires Valid() && at + 8 <= data.Length
      modifies data
      ensures var before := old(data[..]);
              data[..] == before[..at] + Block(Decrypting, TablesNow(), before[at..at + 8]) + before[at + 8..]
    {
      hide Decipher, WordOf, PutWord;
      assert data[..][at..at + 8][..4] == data[at..at + 4] && data[..][at..at + 8][4..] == data[at + 4..at + 8];
      var xl := WordOf(data[at..at + 4]);
      var xr := WordOf(data[at + 4..at + 8]);
      xl, xr := DecipherBlock(xl, xr);
      PutBlock(data, at, PutWord(xl) + PutWord(xr));
    }

    /** Enciphers the slice [lo, hi) of `data` block by block, in place. */
    method EncryptECB(data: array<byte>, lo: nat, hi: nat)
      requires Valid() && lo <= hi <= data.Length
      modifies data
      ensures data[..lo] == old(data[..lo]) && data[hi..] == old(data[hi..])
      ensures data[lo..hi] == Ecb(Encrypting, TablesNow(), old(data[lo..hi]))
    {
      hide Ecb, Block, InParts;
      ghost var before, t := data[..], TablesNow();
      ghost var front, back, done, rest := before[..lo], before[hi..], [], before[lo..hi];
      Start(Encrypting, t, before, lo, hi);
      var i := 0;
      while i + 7 < hi - lo
        invariant 0 <= i <= hi - lo && |done| == i && |rest| == hi - lo - i
        invariant InParts(data[..], front, done, rest, back)
        invariant Ecb(Encrypting, t, before[lo..hi]) == done + Ecb(Encrypting, t, rest)
      {
        NextBlock(Encrypting, t, data[..], front, done, rest, back);
        EncryptBlockAt(data, lo + i);
        done, rest := done + Block(Encrypting, t, rest[..8]), rest[8..];
        i := i + 8;
      }
      Finish(Encrypting, t, data[..], front, done, rest, back);
      assert data[..lo] == data[..][..lo] && data[hi..] == data[..][hi..] && data[lo..hi] == data[..][lo..hi];
    }

    method DecryptECB(data: array<byte>, lo: nat, hi: nat)
      requires Valid() && lo <= hi <= data.Length
      modifies data
      ensures data[..lo] == old(data[..lo]) && data[hi..] == old(data[hi..])
      ensures data[lo..hi] == Ecb(Decrypting, TablesNow(), old(data[lo..hi]))
    {
      hide Ecb, Block, InParts;
      ghost var before, t := data[..], TablesNow();
      ghost var front, back, done, rest := before[..lo], before[hi..], [], before[lo..hi];
      Start(Decrypting, t, before, lo, hi);
      var i := 0;
      while i + 7 < hi - lo
        invariant 0 <= i <= hi - lo && |done| == i && |rest| == hi - lo - i
        invariant InParts(data[..], front, done, rest, back)
        invariant Ecb(Decrypting, t, before[lo..hi]) == done + Ecb(Decrypting, t, rest)
      {
        NextBlock(Decrypting, t, data[..], front, done, rest, back);
        DecryptBlockAt(data, lo + i);
        done, rest := done + Block(Decrypting, t, rest[..8]), rest[8..];
        i := i + 8;
      }
      Finish(Decrypting, t, data[..], front, done, rest, back);
      assert data[..lo] == data[..][..lo] && data[hi..] == data[..][hi..] && data[lo..hi] == data[..][lo..hi];
    }

    method PutBlock(data: array<byte>, at: nat, block: seq<byte>)
      requires |block| == 8 && at + 8 <= data.Length
      modifies data
      ensures var before := old(data[..]); data[..] == before[..at] + block + before[at + 8..]
    {
      for k := 0 to 8
        invariant forall j :: 0 <= j < data.Length ==>
          data[j] == if at <= j < at + k then block[j - at] else old(data[j])
      {
        data[at + k] := block[k];
      }
    }

    /** Enciphers a packet behind its header, leaving out the bytes after the last whole block. */
    method EncryptPacket(packet: array<byte>, headerSize: nat)
      requires Valid()
      modifies packet
      ensures packet[..] == CipherPacket(Encrypting, TablesNow(), old(packet[..]), headerSize)
    {
      hide Ecb;
      if packet.Length <= headerSize {
        return;
      }
      var blockCount := (packet.Length - headerSize) / 4;
      blockCount := blockCount - blockCount % 2;
      ghost var body, t := packet[headerSize..], TablesNow();
      ghost var n := blockCount * 4;
      EcbPrefix(Encrypting, t, body, n);
      assert body[..n] == packet[headerSize..headerSize + n] && body[n..] == packet[headerSize + n..];
      if blockCount > 0 {
        EncryptECB(packet, headerSize, headerSize + blockCount * 4);
      } else {
        EcbStep(Encrypting, t, body[..0]);
      }
      assert packet[..] == packet[..headerSize] + packet[headerSize..headerSize + n] + packet[headerSize + n..];
    }

    method DecryptPacket(packet: array<byte>, headerSize: nat)
      requires Valid()
      modifies packet
      ensures packet[..] == CipherPacket(Decrypting, TablesNow(), old(packet[..]), headerSize)
    {
      hide Ecb;
      if packet.Length <= headerSize {
        return;
      }
      var blockCount := (packet.Length - headerSize) / 4;
      blockCount := blockCount - blockCount % 2;
      ghost var body, t := packet[headerSize..], TablesNow();
      ghost var n := blockCount * 4;
      EcbPrefix(Decrypting, t, body, n);
      assert body[..n] == packet[headerSize..headerSize + n] && body[n..] == packet[headerSize + n..];
      if blockCount > 0 {
        DecryptECB(packet, headerSize, headerSize + blockCount * 4);
      } else {
        EcbStep(Decrypting, t, body[..0]);
      }
      assert packet[..] == packet[..headerSize] + packet[headerSize..headerSize + n] + packet[headerSize + n..];
    }
  }
}
