/** Reading back what was written to an EEPROM, and which offsets share a cell. */
module EepromRoundTrip {
  import opened Division
  import opened Eeprom
  import opened EepromTransfer

  // ---------------------------------------------------------------- the round trip

  /** Bytes that go to the same cell are the same. */
  ghost predicate Consistent(b: Bus, offset: nat, buffer: seq<Byte>, n: nat)
    requires n <= |buffer|
  {
    forall i: nat, j: nat :: i < j < n && CellOf(b, offset + i) == CellOf(b, offset + j) ==> buffer[i] == buffer[j]
  }

  /** A cell holds the last byte stored to it. */
  lemma {:induction false} LastStored(b: Bus, m: Memory, offset: nat, buffer: seq<Byte>, n: nat, j: nat)
    returns (l: nat)
    requires j < n <= |buffer|
    ensures j <= l < n && CellOf(b, offset + l) == CellOf(b, offset + j)
    ensures FlatWrite(b.c, b.devAddr, m, offset, buffer, 0, n)(CellOf(b, offset + j)) == buffer[l]
  {
    l := n - 1;
    if CellOf(b, offset + l) != CellOf(b, offset + j) {
      l := LastStored(b, m, offset, buffer, n - 1, j);
    }
  }

  lemma ConsistentReadsBack(b: Bus, m: Memory, offset: nat, buffer: seq<Byte>, n: nat)
    requires n <= |buffer| && Consistent(b, offset, buffer, n)
    ensures FlatRead(b.c, b.devAddr, FlatWrite(b.c, b.devAddr, m, offset, buffer, 0, n), offset, n) == buffer[..n]
  {
    var back := FlatRead(b.c, b.devAddr, FlatWrite(b.c, b.devAddr, m, offset, buffer, 0, n), offset, n);
    forall j: nat | j < n ensures back[j] == buffer[j] {
      var l := LastStored(b, m, offset, buffer, n, j);
    }
  }

  lemma ReadBackIsConsistent(b: Bus, m: Memory, offset: nat, buffer: seq<Byte>, n: nat)
    requires n <= |buffer| && FlatRead(b.c, b.devAddr, m, offset, n) == buffer[..n]
    ensures Consistent(b, offset, buffer, n)
  {
    var back := FlatRead(b.c, b.devAddr, m, offset, n);
    forall i: nat, j: nat | i < j < n && CellOf(b, offset + i) == CellOf(b, offset + j)
      ensures buffer[i] == buffer[j]
    {
      assert back[i] == buffer[i] && back[j] == buffer[j];
    }
  }

  lemma SamePrefix(x: seq<Byte>, y: seq<Byte>, rest: seq<Byte>)
    requires |x| == |y|
    ensures x + rest == y + rest <==> x == y
  {
    if x + rest == y + rest {
      assert (x + rest)[..|x|] == x && (y + rest)[..|y|] == y;
    }
  }

  /** eeprom_read of a range just written returns the buffer exactly when no cell got two different bytes. */
  lemma RoundTripIff(b: Bus, s: Run, into: seq<Byte>, offset: nat, cnt: nat)
    requires ValidBus(b) && ChunksFit(b.c) && offset + cnt < UINT && cnt <= |s.buffer| && cnt <= |into|
    requires AllSucceed(b, s.calls, offset, offset + cnt)
    requires AllSucceed(b, Rw(b, s, offset, cnt, false).calls, offset, offset + cnt)
    ensures var written := Rw(b, s, offset, cnt, false);
            Rw(b, written.(buffer := into), offset, cnt, true).buffer == s.buffer[..cnt] + into[cnt..]
            <==> Consistent(b, offset, s.buffer, cnt)
  {
    var written := Rw(b, s, offset, cnt, false);
    WriteIsFlat(b, s, offset, cnt);
    ReadIsFlat(b, written.(buffer := into), offset, cnt);
    var back := FlatRead(b.c, b.devAddr, written.mem, offset, cnt);
    SamePrefix(back, s.buffer[..cnt], into[cnt..]);
    if Consistent(b, offset, s.buffer, cnt) {
      ConsistentReadsBack(b, s.mem, offset, s.buffer, cnt);
    } else if back == s.buffer[..cnt] {
      ReadBackIsConsistent(b, written.mem, offset, s.buffer, cnt);
    }
  }

  // ---------------------------------------------------------------- which offsets share a cell

  /** The bits in which two bytes differ are all set in a third. */
  predicate DifferWithin(a: bv8, b: bv8, d: bv8) {
    (a ^ b) & !d == 0
  }

  lemma MaskedIff(a: bv8, b: bv8, d: bv8)
    ensures (a | d) == (b | d) <==> DifferWithin(a, b, d)
  {
  }

  lemma SameChipIff(c: Config, devAddr: bv8, x: nat, y: nat)
    ensures ChipSelect(c, devAddr, x) == ChipSelect(c, devAddr, y)
        <==> DifferWithin(BlockByte(c, x), BlockByte(c, y), devAddr)
  {
    MaskedIff(BlockByte(c, x), BlockByte(c, y), devAddr);
  }

  lemma SameCellIff(c: Config, devAddr: bv8, x: nat, y: nat)
    ensures FlatCell(c, devAddr, x) == FlatCell(c, devAddr, y)
            <==> Rem(x, ChipSize(c)) == Rem(y, ChipSize(c)) && ChipSelect(c, devAddr, x) == ChipSelect(c, devAddr, y)
  {
  }

  /** Two offsets share a cell when they agree within the chip and their block numbers differ at
      most in bits that the device address sets. */
  lemma AliasIff(c: Config, devAddr: bv8, x: nat, y: nat)
    ensures FlatCell(c, devAddr, x) == FlatCell(c, devAddr, y)
            <==> Rem(x, ChipSize(c)) == Rem(y, ChipSize(c)) && DifferWithin(BlockByte(c, x), BlockByte(c, y), devAddr)
  {
    SameChipIff(c, devAddr, x, y);
    SameCellIff(c, devAddr, x, y);
  }

  lemma DisjointBits(a: bv8, b: bv8, d: bv8)
    requires a & d == 0 && b & d == 0 && DifferWithin(a, b, d)
    ensures a == b
  {
  }

  /** Block numbers that fit a byte and leave the device address alone give every offset its own cell. */
  lemma CellsDistinct(c: Config, devAddr: bv8, x: nat, y: nat)
    requires Quot(x, ChipSize(c)) < 0x100 && Quot(y, ChipSize(c)) < 0x100
    requires BlockByte(c, x) & devAddr == 0 && BlockByte(c, y) & devAddr == 0
    ensures FlatCell(c, devAddr, x) == FlatCell(c, devAddr, y) <==> x == y
  {
    if FlatCell(c, devAddr, x) == FlatCell(c, devAddr, y) {
      AliasIff(c, devAddr, x, y);
      DisjointBits(BlockByte(c, x), BlockByte(c, y), devAddr);
      LowByteInjective(Quot(x, ChipSize(c)), Quot(y, ChipSize(c)));
      Split(x, ChipSize(c));
      Split(y, ChipSize(c));
    }
  }
}
