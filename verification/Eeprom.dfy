/** EEPROM access in chunks, on devices whose address counter wraps within a page and which are
    selected by bits of the offset. */
module Eeprom {
  import opened Division

  /** The contents of a cell; the transfer code never looks at them. */
  type Byte = int

  const UINT: nat := 0x1_0000_0000

  /** The build configuration: CONFIG_SYS_I2C_EEPROM_ADDR_LEN, CONFIG_SYS_EEPROM_PAGE_WRITE_BITS
      and I2C_RXTX_LEN. */
  datatype Config = Config(addrLen: nat, pageBits: nat, rxtxLen: nat)

  predicate ValidConfig(c: Config) {
    (c.addrLen == 1 || c.addrLen == 2) && c.pageBits <= 30 && c.rxtxLen > 0
  }

  function Pow2(n: nat): (p: nat)
    ensures p > 0
  {
    if n == 0 then 1 else 2 * Pow2(n - 1)
  }

  function PageSize(c: Config): (p: nat)
    ensures p > 0
  {
    Pow2(c.pageBits)
  }

  /** The addresses one chip decodes: one or two address bytes. */
  function ChipSize(c: Config): (s: nat)
    ensures s > 0
  {
    if c.addrLen == 1 then 0x100 else 0x1_0000
  }

  // ---------------------------------------------------------------- eeprom_addr and eeprom_len

  /** The low eight bits of a number: what an `unsigned` leaves in an `uchar`. */
  function LowByte(n: nat): bv8 {
    (n % 0x100) as bv8
  }

  lemma Increment(b: bv8)
    requires b < 0xff
    ensures (b + 1) as int == b as int + 1
  {
  }

  /** Every number below 256 is a byte. */
  lemma {:induction false} ByteOf(r: nat) returns (b: bv8)
    requires r < 0x100
    ensures b as int == r
  {
    b := 0;
    if r > 0 {
      b := ByteOf(r - 1);
      Increment(b);
      b := b + 1;
    }
  }

  lemma ByteValue(r: nat)
    requires r < 0x100
    ensures (r as bv8) as int == r
  {
    var b := ByteOf(r);
    assert (b as int) as bv8 == b;
  }

  lemma LowByteIsRemainder(n: nat)
    ensures LowByte(n) as int == n % 0x100
  {
    ByteValue(n % 0x100);
  }

  lemma LowByteInjective(n: nat, m: nat)
    requires n < 0x100 && m < 0x100 && LowByte(n) == LowByte(m)
    ensures n == m
  {
    LowByteIsRemainder(n);
    LowByteIsRemainder(m);
  }

  /** The block number as it is sent. */
  function BlockByte(c: Config, offset: nat): bv8 {
    LowByte(Quot(offset, ChipSize(c)))
  }

  /** addr[0]: the block number with the device address inserted. */
  function ChipSelect(c: Config, devAddr: bv8, offset: nat): bv8 {
    BlockByte(c, offset) | devAddr
  }

  /** The bits of a chip select: those of the device address are set, the others are those of the block number. */
  predicate Selects(chip: bv8, devAddr: bv8, block: bv8) {
    && chip & devAddr == devAddr
    && chip & !devAddr == block & !devAddr
  }

  lemma InsertedBits(block: bv8, devAddr: bv8)
    ensures Selects(block | devAddr, devAddr, block)
  {
  }

  /** The block an offset lies in: of 0x100 bytes with one address byte, of 0x1_0000 with two. */
  function BlockOf(c: Config, offset: nat): nat {
    if c.addrLen == 1 then offset / 0x100 else offset / 0x1_0000
  }

  lemma BlockIsSent(c: Config, offset: nat)
    ensures Quot(offset, ChipSize(c)) == BlockOf(c, offset) && BlockByte(c, offset) == LowByte(BlockOf(c, offset))
  {
  }

  lemma ChipSelectBits(c: Config, devAddr: bv8, offset: nat)
    ensures Selects(ChipSelect(c, devAddr, offset), devAddr, LowByte(BlockOf(c, offset)))
  {
    BlockIsSent(c, offset);
    InsertedBits(BlockByte(c, offset), devAddr);
  }

  /** addr[0] |= dev_addr */
  function InsertAddress(c: Config, block: bv8, devAddr: bv8, ghost offset: nat): (chip: bv8)
    requires block == BlockByte(c, offset)
    ensures chip == ChipSelect(c, devAddr, offset) && Selects(chip, devAddr, LowByte(BlockOf(c, offset)))
  {
    ChipSelectBits(c, devAddr, offset);
    block | devAddr
  }

  function Min(a: nat, b: nat): nat {
    if a < b then a else b
  }

  /** The length of the next transfer. */
  function EepromLen(c: Config, offset: nat, end: nat): (len: nat)
    requires offset < end
  {
    var blkOff := Rem(offset, 0x100);
    Min(end - offset, Min(PageSize(c) - Rem(blkOff, PageSize(c)), c.rxtxLen))
  }

  lemma LenBounds(c: Config, offset: nat, end: nat)
    requires ValidConfig(c) && offset < end
    ensures 0 < EepromLen(c, offset, end) <= end - offset
  {
  }

  /** It is the largest length that the request, the bus and the page leave. */
  lemma LenIsLargest(c: Config, offset: nat, end: nat, n: nat)
    requires ValidConfig(c) && offset < end
    ensures n <= EepromLen(c, offset, end)
            <==> offset + n <= end && n <= c.rxtxLen && Rem(offset % 0x100, PageSize(c)) + n <= PageSize(c)
  {
  }

  // ---------------------------------------------------------------- the device

  /** A memory cell: chip select and address within the chip. */
  datatype Cell = Cell(chip: bv8, addr: nat)

  type Memory = Cell -> Byte

  /** Where byte i of a transfer lands: the chip gets the low address bytes of the offset, and its
      counter wraps within the page. */
  function DeviceCell(c: Config, chip: bv8, offset: nat, i: nat): Cell {
    var a := Rem(offset, ChipSize(c));
    Cell(chip, Quot(a, PageSize(c)) * PageSize(c) + Rem(Rem(a, PageSize(c)) + i, PageSize(c)))
  }

  /** Where it lands if offsets are one flat address space. */
  function FlatCell(c: Config, devAddr: bv8, x: nat): Cell {
    Cell(ChipSelect(c, devAddr, x), Rem(x, ChipSize(c)))
  }

  /** The cell an offset reaches: its chip has the bits of the device address and the block number, its address
      in the chip is what the address bytes hold. */
  lemma ReachedCell(c: Config, devAddr: bv8, offset: nat)
    requires ValidConfig(c)
    ensures Selects(FlatCell(c, devAddr, offset).chip, devAddr, LowByte(BlockOf(c, offset)))
    ensures FlatCell(c, devAddr, offset).addr == if c.addrLen == 1 then offset % 0x100 else offset % 0x1_0000
    ensures DeviceCell(c, ChipSelect(c, devAddr, offset), offset, 0) == FlatCell(c, devAddr, offset)
  {
    ChipSelectBits(c, devAddr, offset);
    FirstOfPage(Rem(offset, ChipSize(c)), PageSize(c));
  }

  /** The counter stays in the page. */
  lemma CounterInPage(c: Config, chip: bv8, offset: nat, i: nat)
    ensures Quot(DeviceCell(c, chip, offset, i).addr, PageSize(c)) == Quot(Rem(offset, ChipSize(c)), PageSize(c))
  {
    CounterStep(Quot(Rem(offset, ChipSize(c)), PageSize(c)), Rem(Rem(offset, ChipSize(c)), PageSize(c)) + i,
                PageSize(c));
  }

  /** It goes on by one from byte to byte, and from the last cell of the page back to its first. */
  lemma CounterWraps(c: Config, chip: bv8, offset: nat, i: nat)
    ensures DeviceCell(c, chip, offset, i + 1).addr == Next(DeviceCell(c, chip, offset, i).addr, PageSize(c))
  {
    CounterStep(Quot(Rem(offset, ChipSize(c)), PageSize(c)), Rem(Rem(offset, ChipSize(c)), PageSize(c)) + i,
                PageSize(c));
  }

  function Next(here: nat, page: nat): int
    requires page > 0
  {
    if Rem(here, page) == page - 1 then here + 1 - page else here + 1
  }

  lemma CounterStep(q: nat, k: nat, page: nat)
    requires page > 0
    ensures q * page >= 0 && Quot(q * page + Rem(k, page), page) == q
    ensures q * page + Rem(k + 1, page) == Next(q * page + Rem(k, page), page)
  {
    Parts(page, q, Rem(k, page));
    NextRem(k, page);
  }

  lemma NextRem(a: nat, page: nat)
    requires page > 0
    ensures Rem(a + 1, page) == if Rem(a, page) == page - 1 then 0 else Rem(a, page) + 1
  {
    Split(a, page);
    if Rem(a, page) == page - 1 {
      Distribute(Quot(a, page), 1, page);
      PartsOf(a + 1, page, Quot(a, page) + 1, 0);
    } else {
      PartsOf(a + 1, page, Quot(a, page), Rem(a, page) + 1);
    }
  }

  function Put(m: Memory, at: Cell, b: Byte): Memory {
    cell => if cell == at then b else m(cell)
  }

  /** A write transfer of n bytes of the buffer, from position pos, to the page-wrapping device. */
  function DeviceWrite(c: Config, chip: bv8, m: Memory, offset: nat, buffer: seq<Byte>, pos: nat, n: nat): Memory
    requires pos + n <= |buffer|
  {
    if n == 0 then m
    else Put(DeviceWrite(c, chip, m, offset, buffer, pos, n - 1), DeviceCell(c, chip, offset, n - 1),
             buffer[pos + n - 1])
  }

  /** The same on flat memory. */
  function FlatWrite(c: Config, devAddr: bv8, m: Memory, offset: nat, buffer: seq<Byte>, pos: nat, n: nat): Memory
    requires pos + n <= |buffer|
  {
    if n == 0 then m
    else Put(FlatWrite(c, devAddr, m, offset, buffer, pos, n - 1), FlatCell(c, devAddr, offset + n - 1),
             buffer[pos + n - 1])
  }

  function DeviceRead(c: Config, chip: bv8, m: Memory, offset: nat, n: nat): (r: seq<Byte>)
    ensures |r| == n
  {
    seq(n, i requires 0 <= i => m(DeviceCell(c, chip, offset, i)))
  }

  function FlatRead(c: Config, devAddr: bv8, m: Memory, offset: nat, n: nat): (r: seq<Byte>)
    ensures |r| == n
  {
    seq(n, i requires 0 <= i => m(FlatCell(c, devAddr, offset + i)))
  }

  // ---------------------------------------------------------------- one transfer

  /** The configurations whose transfers stay within one page. */
  predicate ChunksFit(c: Config) {
    c.pageBits <= 8 || c.rxtxLen == 1
  }

  lemma {:induction false} PowDivides(n: nat, m: nat)
    requires n <= m
    ensures Pow2(m) == Pow2(m - n) * Pow2(n)
    decreases m - n
  {
    if n < m {
      PowDivides(n, m - 1);
      Regroup(2, Pow2(m - 1 - n), Pow2(n));
    }
  }

  lemma Pow8()
    ensures Pow2(8) == 0x100
  {
    assert Pow2(4) == 16;
  }

  /** Pages of up to 256 bytes divide 256 and the chip. */
  lemma PagesDivide(c: Config) returns (k: nat)
    requires ValidConfig(c) && c.pageBits <= 8
    ensures 0x100 == k * PageSize(c) && k > 0
    ensures ChipSize(c) == (if c.addrLen == 1 then k else 0x100 * k) * PageSize(c)
  {
    k := Pow2(8 - c.pageBits);
    PowDivides(c.pageBits, 8);
    Pow8();
    Regroup(0x100, k, PageSize(c));
  }

  /** With such pages, or with transfers of single bytes, a transfer never leaves the page it starts in. */
  lemma TransferFitsPage(c: Config, offset: nat, end: nat)
    requires ValidConfig(c) && ChunksFit(c) && offset < end
    ensures Rem(offset, PageSize(c)) + EepromLen(c, offset, end) <= PageSize(c)
  {
    if c.pageBits <= 8 {
      var k := PagesDivide(c);
      RemOfMultiple(offset, k, PageSize(c));
    }
  }

  /** Within its page the wrapping counter counts like the flat address. */
  lemma SameCell(c: Config, devAddr: bv8, offset: nat, i: nat)
    requires ValidConfig(c) && (i == 0 || (c.pageBits <= 8 && Rem(offset, PageSize(c)) + i < PageSize(c)))
    ensures DeviceCell(c, ChipSelect(c, devAddr, offset), offset, i) == FlatCell(c, devAddr, offset + i)
  {
    if i == 0 {
      FirstOfPage(Rem(offset, ChipSize(c)), PageSize(c));
    } else {
      var k := PagesDivide(c);
      WithinPage(PageSize(c), if c.addrLen == 1 then k else 0x100 * k, ChipSize(c), offset, i);
    }
  }

  /** Where the counter starts. */
  lemma FirstOfPage(a: nat, page: nat)
    requires page > 0
    ensures Quot(a, page) * page + Rem(Rem(a, page) + 0, page) == a
  {
    Split(a, page);
    PartsOf(Rem(a, page), page, 0, Rem(a, page));
  }

  /** Page and chip arithmetic: a step within a page stays within the chip. */
  lemma WithinPage(page: nat, pages: nat, chip: nat, offset: nat, i: nat)
    requires page > 0 && chip == pages * page && chip > 0 && Rem(offset, page) + i < page
    ensures var a := Rem(offset, chip);
            && Quot(offset + i, chip) == Quot(offset, chip)
            && Rem(offset + i, chip) == Quot(a, page) * page + Rem(Rem(a, page) + i, page)
  {
    var a := Rem(offset, chip);
    RemOfMultiple(offset, pages, page);
    Split(a, page);
    StepFits(page, pages, a, i);
    Split(offset, chip);
    PartsOf(offset + i, chip, Quot(offset, chip), a + i);
    PartsOf(Rem(a, page) + i, page, 0, Rem(a, page) + i);
  }

  lemma StepFits(page: nat, pages: nat, a: nat, i: nat)
    requires page > 0 && a < pages * page && Rem(a, page) + i < page
    ensures a + i < pages * page
  {
    QuotBelow(a, page, pages);
    RowFits(Quot(a, page), Rem(a, page) + i, page, pages);
    Split(a, page);
    Regroup(1, page, pages);
  }

  /** The bytes a chunk of the transfer loop may move. */
  predicate InChunk(c: Config, offset: nat, n: nat) {
    n <= 1 || (c.pageBits <= 8 && Rem(offset, PageSize(c)) + n <= PageSize(c))
  }

  lemma ChunkStays(c: Config, offset: nat, end: nat)
    requires ValidConfig(c) && ChunksFit(c) && offset < end
    ensures InChunk(c, offset, EepromLen(c, offset, end))
  {
    TransferFitsPage(c, offset, end);
  }

  lemma {:induction false} TransferIsFlat(c: Config, devAddr: bv8, m: Memory, offset: nat, buffer: seq<Byte>,
                                          pos: nat, n: nat)
    requires ValidConfig(c) && InChunk(c, offset, n) && pos + n <= |buffer|
    ensures DeviceWrite(c, ChipSelect(c, devAddr, offset), m, offset, buffer, pos, n)
         == FlatWrite(c, devAddr, m, offset, buffer, pos, n)
  {
    if n > 0 {
      TransferIsFlat(c, devAddr, m, offset, buffer, pos, n - 1);
      SameCell(c, devAddr, offset, n - 1);
    }
  }

  /** The same for reading. */
  lemma ReadTransferIsFlat(c: Config, devAddr: bv8, m: Memory, offset: nat, n: nat)
    requires ValidConfig(c) && InChunk(c, offset, n)
    ensures DeviceRead(c, ChipSelect(c, devAddr, offset), m, offset, n) == FlatRead(c, devAddr, m, offset, n)
  {
    forall i | 0 <= i < n
      ensures DeviceCell(c, ChipSelect(c, devAddr, offset), offset, i) == FlatCell(c, devAddr, offset + i)
    {
      SameCell(c, devAddr, offset, i);
    }
  }
}
