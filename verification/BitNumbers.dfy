/** Words as numbers: what shifting, masking and adding one do to the number a 32-bit word stands for. */
module BitNumbers {
  /** The number a word stands for. Proofs hide its definition, so that words stay words and numbers
      stay numbers. */
  function Number(x: bv32): nat {
    x as nat
  }

  lemma NumberIs(x: bv32)
    ensures Number(x) == x as nat
  {
  }

  lemma SplitBit(x: bv32) returns (h: bv31, b: bv1)
    ensures x == (h as bv32 << 1) | b as bv32 && h as bv32 == x >> 1 && b as bv32 == x & 1
  {
    h, b := (x >> 1) as bv31, (x & 1) as bv1;
  }

  lemma JoinBit(h: bv31, b: bv1)
    ensures Number((h as bv32 << 1) | b as bv32) == 2 * Number(h as bv32) + Number(b as bv32)
  {
  }

  lemma Halves(x: bv32)
    ensures Number(x) == 2 * Number(x >> 1) + Number(x & 1)
  {
    var h, b := SplitBit(x);
    JoinBit(h, b);
  }

  lemma SplitEighth(x: bv32) returns (h: bv29, l: bv3)
    ensures x == (h as bv32 << 3) | l as bv32 && h as bv32 == x >> 3 && l as bv32 == x & 7
  {
    h, l := (x >> 3) as bv29, (x & 7) as bv3;
  }

  lemma JoinEighth(h: bv29, l: bv3)
    ensures Number((h as bv32 << 3) | l as bv32) == 8 * Number(h as bv32) + Number(l as bv32)
    ensures Number(l as bv32) < 8
  {
  }

  lemma Eighths(x: bv32)
    ensures Number(x) == 8 * Number(x >> 3) + Number(x & 7) && Number(x & 7) < 8
  {
    var h, l := SplitEighth(x);
    JoinEighth(h, l);
  }

  lemma SplitHigh(x: bv32) returns (h: bv16, l: bv16)
    ensures x == (h as bv32 << 16) | l as bv32 && h as bv32 == x >> 16 && l as bv32 == x & 0xFFFF
  {
    h, l := (x >> 16) as bv16, (x & 0xFFFF) as bv16;
  }

  lemma JoinHigh(h: bv16, l: bv16)
    ensures Number((h as bv32 << 16) | l as bv32) == 0x1_0000 * Number(h as bv32) + Number(l as bv32)
  {
  }

  lemma HalfWord(l: bv16)
    ensures Number(l as bv32) < 0x1_0000
  {
    assert (l as bv32) as nat == l as nat;
  }

  lemma HighAndLow(x: bv32)
    ensures Number(x) == 0x1_0000 * Number(x >> 16) + Number(x & 0xFFFF) && Number(x & 0xFFFF) < 0x1_0000
  {
    var h, l := SplitHigh(x);
    JoinHigh(h, l);
    HalfWord(l);
  }

  lemma Constants()
    ensures Number(0) == 0 && Number(1) == 1 && Number(0xFFFF_FFFF) == 0xFFFF_FFFF
  {
  }

  lemma WordOfNumber(x: bv32)
    ensures Number(x) < 0x1_0000_0000 && Number(x) as bv32 == x
  {
  }

  lemma LowBit(x: bv32)
    ensures x & 1 == 0 || x & 1 == 1
    ensures x & 1 == 0 ==> (x + 1) >> 1 == x >> 1 && (x + 1) & 1 == 1
    ensures x & 1 == 1 && x != 0xFFFF_FFFF ==> (x + 1) >> 1 == (x >> 1) + 1 && (x + 1) & 1 == 0
    ensures x >> 1 != 0xFFFF_FFFF
  {
  }

  /** Adding one, short of the largest word. */
  lemma {:induction false} Successor(x: bv32)
    requires x != 0xFFFF_FFFF
    ensures Number(x + 1) == Number(x) + 1
    decreases Number(x)
  {
    hide Number;
    Halves(x);
    Halves(x + 1);
    LowBit(x);
    Constants();
    if x & 1 == 1 {
      Successor(x >> 1);
    }
  }

  /** Every number below 2^32 is that of a word. */
  lemma {:induction false} Reaches(n: nat) returns (x: bv32)
    requires n < 0x1_0000_0000
    ensures Number(x) == n
  {
    hide Number;
    Constants();
    x := 0;
    if n > 0 {
      var y := Reaches(n - 1);
      Successor(y);
      x := y + 1;
    }
  }

  lemma NumberOfWord(n: nat)
    requires n < 0x1_0000_0000
    ensures Number(n as bv32) == n
  {
    var x := Reaches(n);
    hide Number;
    WordOfNumber(x);
  }

  /** A number below 2^16 needs only the low half of the word. */
  lemma SixteenBits(n: nat)
    requires n <= 0xFFFF
    ensures Number(n as bv32 & 0xFFFF) == n
  {
    var x := n as bv32;
    hide Number;
    NumberOfWord(n);
    HighAndLow(x);
  }

  /** Division by eight, rounded up. */
  lemma RoundsUp(x: bv32)
    requires x <= 0xFFFF
    ensures Number(x) <= 8 * Number((x + 7) / 8) < Number(x) + 8
  {
    hide Number;
    Eighths(x);
    EighthRoundedUp(x);
    Constants();
    WordOfNumber(x & 7);
    if x & 7 != 0 {
      Successor(x >> 3);
    }
  }

  lemma EighthRoundedUp(x: bv32)
    requires x <= 0xFFFF
    ensures (x + 7) / 8 == if x & 7 == 0 then x >> 3 else (x >> 3) + 1
    ensures x >> 3 != 0xFFFF_FFFF
  {
  }
}
