/**
 Tables on which the preconditions of the theorems hold for every byte at once:
 a code of eight bits for each byte, its own, and the complete tree of depth
 eight to walk them.
 */
module Alphabet {
  import opened Bytes
  import opened CodecSpec

  const LEAVES := 256

  // ---------------------------------------------------------------- the tables

  /** Pattern words for the bytes -128 to 127, then their lengths. */
  function PlainCodes(): EncodeTable {
    seq(0x200, i requires 0 <= i < 0x200 => if i < 0x100 then (i + 0x80) % 0x100 else 8)
  }

  /** The highest power of two up to the number of an inner node. */
  function Top(n: nat): (p: nat)
    requires 0 < n < LEAVES
    ensures p <= n < 2 * p <= LEAVES
  {
    if n < 2 then 1 else if n < 4 then 2 else if n < 8 then 4 else if n < 16 then 8
    else if n < 32 then 16 else if n < 64 then 32 else if n < 128 then 64 else 128
  }

  /** Nodes are numbered from one, level by level, and take four entries each. */
  function Place(n: nat): nat
    requires n > 0
  {
    4 * n - 3
  }

  function PlainEntry(i: nat): JumpEntry {
    var n, slot := (i + 3) / 4, (i + 3) % 4;
    if n == 0 then JumpEntry(Some(1), 0, false)
    else if n < LEAVES then
      if slot == 0 then JumpEntry(Some(Place(n + Top(n))), 0, false)
      else if slot == 1 then JumpEntry(Some(Place(n + 2 * Top(n))), 0, false)
      else BLANK
    else if n < 2 * LEAVES && slot == 3 then JumpEntry(None, ByteOf(n - LEAVES), true)
    else BLANK
  }

  function PlainTree(): JumpTable {
    seq(8 * LEAVES, i requires 0 <= i < 8 * LEAVES => PlainEntry(i))
  }

  // ---------------------------------------------------------------- the walk

  lemma EntryOfNode(n: nat, slot: nat)
    requires 0 < n < 2 * LEAVES && slot < 4
    ensures EntryAt(PlainTree(), Place(n) + slot) ==
            if n < LEAVES && slot == 0 then JumpEntry(Some(Place(n + Top(n))), 0, false)
            else if n < LEAVES && slot == 1 then JumpEntry(Some(Place(n + 2 * Top(n))), 0, false)
            else if n >= LEAVES && slot == 3 then JumpEntry(None, ByteOf(n - LEAVES), true)
            else BLANK
  {
    hide Top, ByteOf;
    var i := Place(n) + slot;
    assert (i + 3) / 4 == n && (i + 3) % 4 == slot;
  }

  /** One step down the tree. */
  lemma StepDown(n: nat, bit: bool)
    requires 0 < n < LEAVES
    ensures var next := n + if bit then 2 * Top(n) else Top(n);
            MoveOn(PlainTree(), Place(n), bit)
            == if next < LEAVES then Inner(Place(next)) else Emit(ByteOf(next - LEAVES))
  {
    hide Top, ByteOf, PlainTree;
    var next := n + if bit then 2 * Top(n) else Top(n);
    EntryOfNode(n, if bit then 1 else 0);
    EntryOfNode(next, 0);
    EntryOfNode(next, 1);
    EntryOfNode(next, 3);
  }

  function Power(d: nat): (p: nat)
    ensures p > 0
  {
    if d == 0 then 1 else 2 * Power(d - 1)
  }

  /** The value of the first `d` bits of a byte. */
  function Low(b: byte, d: nat): (v: nat)
    requires d <= 8
    ensures v < Power(d)
  {
    if d == 0 then 0 else Low(b, d - 1) + if BitOf(b, d - 1) then Power(d - 1) else 0
  }

  lemma LowNext(b: byte, d: nat)
    requires d < 8
    ensures Low(b, 0) == 0 && Low(b, d + 1) == Low(b, d) + Weight(BitOf(b, d), Power(d))
  {
    hide BitOf;
  }

  lemma Powers()
    ensures Power(0) == 1 && Power(1) == 2 && Power(2) == 4 && Power(3) == 8
    ensures Power(4) == 16 && Power(5) == 32 && Power(6) == 64 && Power(7) == 128
  {
    assert Power(3) == 8;
    assert Power(6) == 64;
  }

  lemma LowIsAll(b: byte)
    ensures Low(b, 8) == b as int
  {
    hide BitOf, Low, Power, Weight;
    ByteIsSum(b);
    Powers();
    LowNext(b, 0);
    LowNext(b, 1);
    LowNext(b, 2);
    LowNext(b, 3);
    LowNext(b, 4);
    LowNext(b, 5);
    LowNext(b, 6);
    LowNext(b, 7);
  }

  lemma TopIsPower(n: nat, d: nat)
    requires d < 8 && Power(d) <= n < 2 * Power(d)
    ensures n < LEAVES && Top(n) == Power(d)
  {
    assert Power(7) == 128;
    if d == 0 {} else if d == 1 {} else if d == 2 {} else if d == 3 {}
    else if d == 4 {} else if d == 5 {} else if d == 6 {} else { assert d == 7; }
  }

  /** The node that the first `d` bits of a byte lead to. */
  function Reached(b: byte, d: nat): (n: nat)
    requires d <= 8
    ensures n > 0
  {
    Power(d) + Low(b, d)
  }

  lemma NextNode(b: byte, d: nat)
    requires d < 8
    ensures Reached(b, d) < LEAVES
    ensures var n := Reached(b, d); Reached(b, d + 1) == n + if BitOf(b, d) then 2 * Top(n) else Top(n)
    ensures Reached(b, d + 1) < LEAVES <==> d < 7
    ensures d == 7 ==> Reached(b, d + 1) - LEAVES == b as int
  {
    hide Top, BitOf;
    TopIsPower(Reached(b, d), d);
    if d < 7 {
      TopIsPower(Reached(b, d + 1), d + 1);
    } else {
      LowIsAll(b);
      assert Power(8) == 256;
    }
  }

  /** From there the rest of the byte's bits lead to the leaf that holds it. */
  lemma {:induction false} WalkDown(b: byte, d: nat)
    requires d < 8
    ensures Reaches(PlainTree(), Place(Reached(b, d)), BitsOf([b])[d..], b)
    decreases 8 - d
  {
    hide Top, ByteOf, PlainTree, MoveOn, BitOf, Place, Reached, BitsOf;
    var bits := BitsOf([b])[d..];
    BitsOfAt([b], d);
    NextNode(b, d);
    StepDown(Reached(b, d), BitOf(b, d));
    assert bits[0] == BitOf(b, d) && bits[1..] == BitsOf([b])[d + 1..];
    if d == 7 {
      ByteOfValue(b);
    } else {
      WalkDown(b, d + 1);
    }
  }

  /** Each byte is its own code. */
  lemma PlainCode(b: byte)
    ensures HasCode(PlainCodes(), b) && CodeLength(PlainCodes(), b) == 8
    ensures Code(PlainCodes(), b) == BitsOf([b])
  {
    hide BitsOf, PutUint32;
    PlainPattern(b);
    var pattern := PutUint32(b as int);
    assert pattern[..1] == [b];
    BitsOfTake(pattern, 1);
  }

  lemma PlainPattern(b: byte)
    ensures InTable(PlainCodes(), b) && CodeLength(PlainCodes(), b) == 8 && CodePattern(PlainCodes(), b) == b as int
    ensures PutUint32(b as int)[0] == b
  {
    ByteOfValue(b);
  }

  /** All that any theorem asks of its tables, for every byte. */
  lemma PlainTablesAgree()
    ensures forall b: byte :: Agrees(PlainCodes(), PlainTree(), 1, b) && CodeLength(PlainCodes(), b) <= 16
    ensures SafeTable(PlainTree()) && NodeInTable(PlainTree(), 1)
  {
    hide Code, Reaches, PlainTree, PlainCodes, BitsOf;
    forall b: byte
      ensures Agrees(PlainCodes(), PlainTree(), 1, b) && CodeLength(PlainCodes(), b) <= 16
    {
      PlainCode(b);
      WalkDown(b, 0);
      assert Reached(b, 0) == 1 && Place(1) == 1;
      assert BitsOf([b])[0..] == BitsOf([b]);
    }
    PlainTreeIsSafe();
  }

  lemma PlainTreeIsSafe()
    ensures SafeTable(PlainTree()) && NodeInTable(PlainTree(), 1)
  {
    hide ByteOf;
  }
}
