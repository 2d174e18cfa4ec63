/** For which page sizes chunked EEPROM transfers act as on flat memory. */
module EepromPages {
  import opened Division
  import opened Eeprom
  import opened EepromTransfer
  import opened EepromRoundTrip

  /** The transfers stay within their page for every request exactly when a page has at most 256
      bytes, or transfers are single bytes. */
  lemma FitsAlwaysIff(c: Config)
    requires ValidConfig(c)
    ensures (forall offset: nat, end: nat ::
               offset < end < UINT ==> Rem(offset, PageSize(c)) + EepromLen(c, offset, end) <= PageSize(c))
            <==> ChunksFit(c)
  {
    if ChunksFit(c) {
      forall offset: nat, end: nat | offset < end < UINT
        ensures Rem(offset, PageSize(c)) + EepromLen(c, offset, end) <= PageSize(c)
      {
        TransferFitsPage(c, offset, end);
      }
    } else {
      BigPage(c);
      assert EepromLen(c, PageSize(c) - 1, PageSize(c) + 1) == 2;
    }
  }

  lemma PowBelow(n: nat, m: nat)
    requires n <= m
    ensures Pow2(n) <= Pow2(m)
  {
    PowDivides(n, m);
    MulMonotone(1, Pow2(m - n), Pow2(n));
  }

  lemma Pow30()
    ensures Pow2(16) == 0x1_0000 && Pow2(30) == 0x4000_0000
  {
    Pow8();
    PowDivides(8, 16);
    PowDivides(8, 24);
    PowDivides(6, 30);
    assert Pow2(6) == 64;
  }

  /** The last byte before a multiple of d. */
  lemma LastBefore(k: nat, d: nat)
    requires k > 0 && d > 0
    ensures k * d > 0 && Quot(k * d - 1, d) == k - 1 && Rem(k * d - 1, d) == d - 1
    ensures Quot(k * d, d) == k && Rem(k * d, d) == 0
  {
    Distribute(k, -1, d);
    MulMonotone(1, k, d);
    PartsOf(k * d - 1, d, k - 1, d - 1);
    PartsOf(k * d, d, k, 0);
  }

  /** A page of more than 256 bytes, and the transfer that starts at its last byte. */
  lemma BigPage(c: Config)
    requires ValidConfig(c) && !ChunksFit(c)
    ensures 0x200 <= PageSize(c) < UINT - 1 && Rem(PageSize(c) - 1, PageSize(c)) == PageSize(c) - 1
    ensures EepromLen(c, PageSize(c) - 1, PageSize(c) + 1) == 2
  {
    var k := Pow2(c.pageBits - 8);
    PowDivides(8, c.pageBits);
    Pow8();
    LastBefore(k, 0x100);
    LastBefore(1, PageSize(c));
    PowBelow(9, c.pageBits);
    assert Pow2(9) == 0x200;
    PowBelow(c.pageBits, 30);
    Pow30();
    LastByteLength(c);
  }

  lemma LastByteLength(c: Config)
    requires ValidConfig(c) && c.rxtxLen > 1 && PageSize(c) >= 0x200 && Rem(PageSize(c) - 1, 0x100) == 0xff
    ensures EepromLen(c, PageSize(c) - 1, PageSize(c) + 1) == 2
  {
    PartsOf(0xff, PageSize(c), 0, 0xff);
  }

  /** The second byte of that transfer does not go to its flat cell, for device address 0. */
  lemma BigPageMisses(c: Config)
    requires ValidConfig(c) && !ChunksFit(c)
    ensures PageSize(c) > 0
    ensures var page, chip := PageSize(c), ChipSelect(c, 0, PageSize(c) - 1);
            && DeviceCell(c, chip, page - 1, 0) != FlatCell(c, 0, page)
            && DeviceCell(c, chip, page - 1, 1) != FlatCell(c, 0, page)
  {
    var page, chips := PageSize(c), ChipSize(c);
    BigPage(c);
    Pow30();
    Pow8();
    if page < chips {
      PartsOf(page - 1, chips, 0, page - 1);
      PartsOf(page, chips, 0, page);
      PagesFromStart(c);
    } else {
      var n := if c.addrLen == 1 then 8 else 16;
      if c.pageBits < n {
        PowBelow(c.pageBits + 1, n);
        assert false;
      }
      var k := Pow2(c.pageBits - n);
      PowDivides(n, c.pageBits);
      LastBefore(k, chips);
      PagesBeyondChip(c, k);
    }
  }

  /** A page within its chip: the counter wraps to the front of the page. */
  lemma PagesFromStart(c: Config)
    requires ValidConfig(c) && 1 < PageSize(c) < ChipSize(c)
    requires Rem(PageSize(c) - 1, ChipSize(c)) == PageSize(c) - 1 && Rem(PageSize(c), ChipSize(c)) == PageSize(c)
    ensures var page, chip := PageSize(c), ChipSelect(c, 0, PageSize(c) - 1);
            && DeviceCell(c, chip, page - 1, 0) == Cell(chip, page - 1)
                && DeviceCell(c, chip, page - 1, 1) == Cell(chip, 0)
            && FlatCell(c, 0, page).addr == page
  {
    var page := PageSize(c);
    PartsOf(page - 1, page, 0, page - 1);
    PartsOf(page, page, 1, 0);
    PartsOf(page - 1 + 0, page, 0, page - 1);
  }

  /** A page at least as large as its chip: the counter runs off the chip or wraps within it, while the
      flat offset goes on to the next chip. */
  lemma PagesBeyondChip(c: Config, k: nat)
    requires ValidConfig(c) && PageSize(c) == k * ChipSize(c) && k > 0
    requires Quot(PageSize(c) - 1, ChipSize(c)) == k - 1 && Rem(PageSize(c) - 1, ChipSize(c)) == ChipSize(c) - 1
    requires Quot(PageSize(c), ChipSize(c)) == k && Rem(PageSize(c), ChipSize(c)) == 0
    ensures var page, chip := PageSize(c), ChipSelect(c, 0, PageSize(c) - 1);
            && DeviceCell(c, chip, page - 1, 0) != FlatCell(c, 0, page)
            && DeviceCell(c, chip, page - 1, 1) != FlatCell(c, 0, page)
  {
    var page, a := PageSize(c), ChipSize(c) - 1;
    MulMonotone(1, k, ChipSize(c));
    PartsOf(a, page, 0, a);
    PartsOf(a + 0, page, 0, a);
    if k == 1 {
      PartsOf(a + 1, page, 1, 0);
      FirstAndSecondBlock();
    } else {
      MulMonotone(2, k, ChipSize(c));
      PartsOf(a + 1, page, 0, a + 1);
    }
  }

  lemma FirstAndSecondBlock()
    ensures LowByte(0) | 0 != LowByte(1) | 0
  {
    LowByteIsRemainder(0);
    LowByteIsRemainder(1);
  }

  /** A write leaves the device as flat memory would be left. */
  ghost predicate WritesFlat(b: Bus, s: Run, offset: nat)
    requires ValidBus(b) && offset + |s.buffer| < UINT
  {
    Rw(b, s, offset, |s.buffer|, false).mem == FlatWrite(b.c, b.devAddr, s.mem, offset, s.buffer, 0, |s.buffer|)
  }

  /** A two-byte write at the end of such a page. */
  lemma BigPageWrite(b: Bus, s: Run)
    requires ValidBus(b) && !ChunksFit(b.c) && b.failing == {} && |s.buffer| == 2
    ensures PageSize(b.c) < UINT - 1
    ensures var page, chip := PageSize(b.c), ChipSelect(b.c, b.devAddr, PageSize(b.c) - 1);
            Rw(b, s, page - 1, 2, false).mem
            == Put(Put(s.mem, DeviceCell(b.c, chip, page - 1, 0), s.buffer[0]), DeviceCell(b.c, chip, page - 1, 1),
                   s.buffer[1])
  {
    BigPage(b.c);
    var page := PageSize(b.c);
    var chip := ChipSelect(b.c, b.devAddr, page - 1);
    var len := RwStep(b, s.(rc := 0), Request(page - 1, page + 1, false), page - 1);
    assert DeviceWrite(b.c, chip, s.mem, page - 1, s.buffer, 0, 1)
        == Put(s.mem, DeviceCell(b.c, chip, page - 1, 0), s.buffer[0]);
  }

  /** Writes are flat for every device address, contents, offset and buffer exactly when a page has at
      most 256 bytes or transfers are single bytes. */
  lemma FlatAlwaysIff(c: Config)
    requires ValidConfig(c)
    ensures (forall b: Bus, s: Run, offset: nat ::
               b.c == c && b.failing == {} && offset + |s.buffer| < UINT ==> WritesFlat(b, s, offset))
            <==> ChunksFit(c)
  {
    if ChunksFit(c) {
      forall b: Bus, s: Run, offset: nat | b.c == c && b.failing == {} && offset + |s.buffer| < UINT
        ensures WritesFlat(b, s, offset)
      {
        WriteIsFlat(b, s, offset, |s.buffer|);
      }
    } else {
      var b, s := Bus(c, 0, {}), Run(_ => 0, [0, 1], 0, 0);
      BigPage(c);
      BigPageWrite(b, s);
      BigPageMisses(c);
      var l := LastStored(b, s.mem, PageSize(c) - 1, s.buffer, 2, 1);
      assert Rw(b, s, PageSize(c) - 1, 2, false).mem(FlatCell(c, 0, PageSize(c))) == 0;
      assert !WritesFlat(b, s, PageSize(c) - 1);
    }
  }

  /** With pages of more than 256 bytes but less than a 64 KiB chip, whatever the device address, such a
      write leaves its second byte's cell alone. */
  lemma BigPagesAreNotFlat(b: Bus, s: Run)
    requires ValidBus(b) && b.c.addrLen == 2 && b.c.pageBits < 16 && !ChunksFit(b.c) && b.failing == {}
        && |s.buffer| == 2
    ensures PageSize(b.c) < UINT - 1
    ensures var after := Rw(b, s, PageSize(b.c) - 1, 2, false).mem;
            after(CellOf(b, PageSize(b.c))) == s.mem(CellOf(b, PageSize(b.c)))
  {
    var page := PageSize(b.c);
    BigPage(b.c);
    Pow30();
    PowBelow(b.c.pageBits + 1, 16);
    PartsOf(page - 1, ChipSize(b.c), 0, page - 1);
    PartsOf(page, ChipSize(b.c), 0, page);
    PagesFromStart(b.c);
    BigPageWrite(b, s);
  }
}
