/** Floppy geometry: linear block numbers against (track, head, sector), and what a READ command
    delivers from the disk. */
module FloppyGeometry {
  import opened Division

  /** The fields of FD_GEO_STRUCT the read engine uses. */
  datatype Geometry = Geometry(size: nat, sect: nat, head: nat, track: nat, sectCode: nat)

  /** The one drive type of the source's table. */
  const H1440 := Geometry(2880, 18, 2, 80, 2)

  /** Sectors per cylinder. */
  function Cylinder(g: Geometry): nat {
    g.sect * g.head
  }

  /** Every coordinate fits the byte of its command field. */
  predicate ValidShape(g: Geometry) {
    0 < g.sect < 256 && 0 < g.head <= 2 && 0 < g.track <= 256 && Cylinder(g) > 0
  }

  /** And the blocks fill the tracks. */
  predicate ValidGeometry(g: Geometry) {
    ValidShape(g) && g.size == g.track * Cylinder(g)
  }

  /** The 1.44 MB disk: 2880 blocks of 512 bytes on 80 tracks of two sides with 18 sectors. */
  lemma H1440IsValid()
    ensures ValidGeometry(H1440) && SectSize(H1440.sectCode) == 512
    ensures H1440.size == 2880 && H1440.track == 80 && H1440.head == 2 && H1440.sect == 18
  {
    assert SectSize(1) == 256;
  }

  datatype Chs = Chs(track: nat, head: nat, sector: nat)

  predicate ValidChs(g: Geometry, c: Chs) {
    c.track < g.track && c.head < g.head && 1 <= c.sector <= g.sect
  }

  /** The geometry part of fdc_issue_cmd. */
  function ToChs(g: Geometry, blnr: nat): Chs
    requires g.sect > 0 && Cylinder(g) > 0
  {
    var rest := Rem(blnr, Cylinder(g));
    Chs(Quot(blnr, Cylinder(g)), Quot(rest, g.sect), Rem(rest, g.sect) + 1)
  }

  function ToBlock(g: Geometry, c: Chs): int {
    c.track * Cylinder(g) + c.head * g.sect + (c.sector - 1)
  }

  /** 0x80 << sect_code */
  function SectSize(sectCode: nat): (s: nat)
    ensures s >= 128
  {
    if sectCode == 0 then 0x80 else 2 * SectSize(sectCode - 1)
  }

  /** The bytes of n blocks. */
  function Bytes(g: Geometry, n: nat): nat {
    if n == 0 then 0 else Bytes(g, n - 1) + SectSize(g.sectCode)
  }

  lemma {:induction false} BytesIsProduct(g: Geometry, n: nat)
    ensures Bytes(g, n) == n * SectSize(g.sectCode) == SectSize(g.sectCode) * n
  {
    if n > 0 {
      BytesIsProduct(g, n - 1);
      Distribute(n - 1, 1, SectSize(g.sectCode));
    }
  }

  lemma {:induction false} BytesAdd(g: Geometry, n: nat, m: nat)
    ensures Bytes(g, n + m) == Bytes(g, n) + Bytes(g, m)
  {
    if m > 0 {
      BytesAdd(g, n, m - 1);
    }
  }

  // ---------------------------------------------------------------- the bijection

  /** Every block of the disk has valid coordinates, from which its number is recovered. */
  lemma BlockRoundTrip(g: Geometry, blnr: nat)
    requires ValidGeometry(g) && blnr < g.size
    ensures ValidChs(g, ToChs(g, blnr)) && ToBlock(g, ToChs(g, blnr)) == blnr
  {
    ChsIsValid(g, blnr);
    Split(blnr, Cylinder(g));
    Split(Rem(blnr, Cylinder(g)), g.sect);
  }

  lemma ChsIsValid(g: Geometry, blnr: nat)
    requires ValidGeometry(g) && blnr < g.size
    ensures ValidChs(g, ToChs(g, blnr))
  {
    QuotBelow(Rem(blnr, Cylinder(g)), g.sect, g.head);
    QuotBelow(blnr, Cylinder(g), g.track);
  }

  /** A coordinate triple lies within the disk. */
  lemma BlockInDisk(g: Geometry, c: Chs)
    requires ValidGeometry(g) && ValidChs(g, c)
    ensures 0 <= c.head * g.sect + (c.sector - 1) < Cylinder(g)
    ensures 0 <= ToBlock(g, c) < g.size
  {
    RowFits(c.head, c.sector - 1, g.sect, g.head);
    MulMonotone(c.track + 1, g.track, Cylinder(g));
    Distribute(c.track, 1, Cylinder(g));
  }

  /** Every valid coordinate triple is that of exactly one block. */
  lemma ChsRoundTrip(g: Geometry, c: Chs)
    requires ValidGeometry(g) && ValidChs(g, c)
    ensures 0 <= ToBlock(g, c) < g.size && ToChs(g, ToBlock(g, c)) == c
  {
    var rest := c.head * g.sect + (c.sector - 1);
    BlockInDisk(g, c);
    PartsOf(ToBlock(g, c), Cylinder(g), c.track, rest);
    PartsOf(rest, g.sect, c.head, c.sector - 1);
  }

  /** Of any block, on the disk or beyond it, the head and the sector are valid. */
  lemma SideIsValid(g: Geometry, blnr: nat)
    requires ValidShape(g)
    ensures ToChs(g, blnr).head < g.head && 1 <= ToChs(g, blnr).sector <= g.sect
  {
    QuotBelow(Rem(blnr, Cylinder(g)), g.sect, g.head);
  }

  /** The offset within the side of a track is the same counted from block 0. */
  lemma SideOffset(g: Geometry, blnr: nat)
    requires ValidShape(g)
    ensures Rem(blnr, g.sect) == Rem(Rem(blnr, Cylinder(g)), g.sect)
  {
    assert Cylinder(g) == g.head * g.sect;
    RemOfMultiple(blnr, g.head, g.sect);
  }

  /** Within one side of a track consecutive blocks are consecutive sectors. */
  lemma NextSectors(g: Geometry, blnr: nat, j: nat)
    requires ValidShape(g) && Rem(blnr, g.sect) + j < g.sect
    ensures ToChs(g, blnr + j) == ToChs(g, blnr).(sector := ToChs(g, blnr).sector + j)
  {
    var t, rest := Quot(blnr, Cylinder(g)), Rem(blnr, Cylinder(g));
    var h, s := Quot(rest, g.sect), Rem(rest, g.sect);
    Split(blnr, Cylinder(g));
    Split(rest, g.sect);
    SideOffset(g, blnr);
    QuotBelow(rest, g.sect, g.head);
    RowFits(h, s + j, g.sect, g.head);
    PartsOf(rest + j, g.sect, h, s + j);
    PartsOf(blnr + j, Cylinder(g), t, rest + j);
  }

  // ---------------------------------------------------------------- disk contents

  /** The bytes on the disk, by track, head, sector and offset. */
  datatype Disk = Disk(byteAt: (nat, nat, nat, nat) -> int)

  /** A track number as the byte in which it is sent. */
  function TrackByte(track: nat): nat {
    Rem(track, 256)
  }

  /** Byte k of the blocks 0, 1, 2, ... as a command can address them; beyond track 255 track
      numbers repeat. */
  function FlatByte(d: Disk, g: Geometry, k: nat): int
    requires g.sect > 0 && Cylinder(g) > 0
  {
    var c := ToChs(g, Quot(k, SectSize(g.sectCode)));
    d.byteAt(TrackByte(c.track), c.head, c.sector, Rem(k, SectSize(g.sectCode)))
  }

  /** The nine bytes of a READ command, as written to the controller. */
  datatype ReadCommand = ReadCommand(command: int, drive: nat, track: nat, head: nat, sector: nat,
                                     sizeCode: nat, lastSector: nat, gap: int, dtl: int)

  /** The side a drive byte selects: bit 2, behind the two bits of the drive number. */
  function HeadSelect(drive: nat): nat
  {
    drive / 4 % 2
  }

  /** The controller finds a sector only on the track the heads stand on, on the side the drive byte
      selects, and when its track and head numbers are those of the command. */
  predicate Found(cylinder: nat, cmd: ReadCommand, sector: nat) {
    cmd.track == cylinder && cmd.head == HeadSelect(cmd.drive) && sector <= cmd.lastSector
  }

  /** Byte i the controller delivers for a READ while the heads stand on a track: it steps through the
      sectors of the selected side up to the last one; what is not found there is never delivered. */
  function Delivered(d: Disk, cylinder: nat, cmd: ReadCommand, i: nat): int {
    var sector := cmd.sector + Quot(i, SectSize(cmd.sizeCode));
    if Found(cylinder, cmd, sector) then
      d.byteAt(cylinder, HeadSelect(cmd.drive), sector, Rem(i, SectSize(cmd.sizeCode)))
    else 0
  }

  /** FDC_CMD_READ with the MFM bit. */
  const MFM_READ := 0x46

  /** drive | 0x04 */
  function WithHeadBit(drive: nat): nat {
    if drive / 4 % 2 == 0 then drive + 4 else drive
  }

  /** fdc_issue_cmd for FDC_CMD_READ at a block number; each field is stored in a byte. */
  function ReadAt(g: Geometry, drive: nat, gap: nat, blnr: nat): ReadCommand
    requires g.sect > 0 && Cylinder(g) > 0
  {
    var c := ToChs(g, blnr);
    ReadCommand(MFM_READ, if c.head != 0 then WithHeadBit(drive) else drive,
                TrackByte(c.track), Rem(c.head, 256), Rem(c.sector, 256), g.sectCode, Rem(g.sect, 256), gap, 0xFF)
  }

  /** The drive number leaves the head-select bit free. */
  predicate HeadBitFree(drive: nat) {
    drive / 4 % 2 == 0
  }

  lemma HeadBit(drive: nat)
    ensures HeadSelect(WithHeadBit(drive)) == 1
    ensures HeadSelect(drive) == if HeadBitFree(drive) then 0 else 1
  {
    if HeadBitFree(drive) {
      assert (drive + 4) / 4 == drive / 4 + 1;
    }
  }

  /** The side selected is the block's exactly when the drive number leaves the head-select bit free or the
      block is on side 1; the four drive numbers 0 to 3 leave it free. */
  lemma SideIsSelectedIff(g: Geometry, drive: nat, gap: nat, blnr: nat)
    requires ValidShape(g)
    ensures var cmd, c := ReadAt(g, drive, gap, blnr), ToChs(g, blnr);
            && (HeadSelect(cmd.drive) == c.head <==> HeadBitFree(drive) || c.head == 1)
            && (drive < 4 ==> HeadBitFree(drive) && cmd.drive == drive + 4 * c.head)
  {
    SideIsValid(g, blnr);
    HeadBit(drive);
  }

  /** Storing the coordinates in bytes cuts off nothing but the high bits of a track number, which a
      block of the disk does not have. */
  lemma CommandFields(g: Geometry, drive: nat, gap: nat, blnr: nat)
    requires ValidShape(g)
    ensures var cmd, c := ReadAt(g, drive, gap, blnr), ToChs(g, blnr);
            && cmd.command == 0x46 && cmd.gap == gap && cmd.dtl == 0xFF
            && (drive < 4 ==> cmd.drive == drive + 4 * c.head)
            && cmd.track == TrackByte(c.track) && cmd.head == c.head && cmd.sector == c.sector
            && cmd.lastSector == g.sect && cmd.sizeCode == g.sectCode
            && (ValidChs(g, c) ==> cmd.track == c.track)
  {
    SideIsValid(g, blnr);
    SideIsSelectedIff(g, drive, gap, blnr);
  }

  lemma FlatByteOfBlock(d: Disk, g: Geometry, blnr: nat, i: nat)
    requires ValidShape(g)
    ensures var size := SectSize(g.sectCode);
            var c := ToChs(g, blnr + Quot(i, size));
            FlatByte(d, g, Bytes(g, blnr) + i) == d.byteAt(TrackByte(c.track), c.head, c.sector, Rem(i, size))
  {
    BytesIsProduct(g, blnr);
    Shifted(blnr, i, SectSize(g.sectCode));
  }

  /** For the blocks of the disk that is the byte on the block's own track. */
  lemma FlatByteOnDisk(d: Disk, g: Geometry, blnr: nat, i: nat)
    requires ValidGeometry(g) && blnr < g.size && i < SectSize(g.sectCode)
    ensures var c := ToChs(g, blnr);
            ValidChs(g, c) && FlatByte(d, g, Bytes(g, blnr) + i) == d.byteAt(c.track, c.head, c.sector, i)
  {
    ChsIsValid(g, blnr);
    PartsOf(i, SectSize(g.sectCode), 0, i);
    FlatByteOfBlock(d, g, blnr, i);
    OwnTrack(ToChs(g, blnr).track);
  }

  lemma OwnTrack(track: nat)
    requires track < 256
    ensures TrackByte(track) == track
  {
  }

  /** What a READ at a block delivers while it stays on the side and the heads stand on the track. */
  lemma DeliveredByte(d: Disk, g: Geometry, drive: nat, gap: nat, blnr: nat, i: nat)
    requires ValidShape(g) && Rem(blnr, g.sect) + Quot(i, SectSize(g.sectCode)) < g.sect && HeadBitFree(drive)
    ensures var size, cmd := SectSize(g.sectCode), ReadAt(g, drive, gap, blnr);
            var c := ToChs(g, blnr + Quot(i, size));
            Delivered(d, cmd.track, cmd, i) == d.byteAt(TrackByte(c.track), c.head, c.sector, Rem(i, size))
  {
    CommandFields(g, drive, gap, blnr);
    SideIsSelectedIff(g, drive, gap, blnr);
    NextSectors(g, blnr, Quot(i, SectSize(g.sectCode)));
    SideOffset(g, blnr);
  }

  lemma BlockOfByte(g: Geometry, count: nat, i: nat)
    requires i < Bytes(g, count)
    ensures Quot(i, SectSize(g.sectCode)) < count
  {
    BytesIsProduct(g, count);
    QuotBelow(i, SectSize(g.sectCode), count);
  }

  /** A READ that stays on one side of a track, issued while the heads stand on that track, delivers the
      requested blocks in order. */
  lemma ReadDeliversBlocks(d: Disk, g: Geometry, drive: nat, gap: nat, blnr: nat, count: nat, i: nat)
    requires ValidShape(g) && Rem(blnr, g.sect) + count <= g.sect && i < Bytes(g, count) && HeadBitFree(drive)
    ensures var cmd := ReadAt(g, drive, gap, blnr);
            Delivered(d, cmd.track, cmd, i) == FlatByte(d, g, Bytes(g, blnr) + i)
  {
    BlockOfByte(g, count, i);
    FlatByteOfBlock(d, g, blnr, i);
    DeliveredByte(d, g, drive, gap, blnr, i);
  }

  /** Otherwise nothing of a block on side 0 is found. */
  lemma WrongSideFindsNothing(d: Disk, g: Geometry, drive: nat, gap: nat, blnr: nat, cylinder: nat, i: nat)
    requires ValidShape(g) && !HeadBitFree(drive) && ToChs(g, blnr).head == 0
    ensures Delivered(d, cylinder, ReadAt(g, drive, gap, blnr), i) == 0
  {
    CommandFields(g, drive, gap, blnr);
    HeadBit(drive);
  }
}
