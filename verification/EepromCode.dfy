/** What the return code of an EEPROM request says, and what it does not. */
module EepromCode {
  import opened Division
  import opened Eeprom
  import opened EepromTransfer
  import opened EepromRoundTrip

  /** A request that runs past 32 bits transfers nothing and reports success. */
  lemma OverflowDoesNothing(b: Bus, s: Run, offset: nat, cnt: nat, read: bool)
    requires ValidBus(b) && offset < UINT && cnt < UINT && cnt <= |s.buffer|
    ensures offset + cnt >= 0x1_0000_0000 ==> Rw(b, s, offset, cnt, read) == s.(rc := 0)
    ensures offset + cnt < 0x1_0000_0000 && cnt > 0 ==> Rw(b, s, offset, cnt, read).calls > s.calls
  {
    if offset + cnt < UINT && cnt > 0 {
      CodeOfLast(b, s.(rc := 0), Request(offset, offset + cnt, read), offset);
    }
  }

  /** The return code is that of the last transfer alone. */
  lemma {:induction false} CodeOfLast(b: Bus, s: Run, q: Request, offset: nat)
    requires ValidBus(b) && Fits(q, s, offset)
    ensures var r := RwFrom(b, s, q, offset);
            && r.calls == s.calls + Transfers(b.c, offset, q.end)
            && r.rc == (if offset >= q.end then s.rc else if r.calls - 1 in b.failing then FAILURE else 0)
    decreases if offset < q.end then q.end - offset else 0
  {
    if offset < q.end {
      var len := RwStep(b, s, q, offset);
      CodeOfLast(b, Block(b, s, offset - q.start, offset, len, q.read), q, offset + len);
    }
  }

  /** A request that transfers something returns 0 exactly when its last transfer succeeds, and 1 otherwise;
      which one that is follows from the offsets alone. */
  lemma SuccessIffLastSucceeds(b: Bus, s: Run, offset: nat, cnt: nat, read: bool)
    requires ValidBus(b) && cnt <= |s.buffer| && 0 < cnt && offset + cnt < UINT
    ensures Transfers(b.c, offset, offset + cnt) > 0
    ensures Rw(b, s, offset, cnt, read).rc
         == if s.calls + Transfers(b.c, offset, offset + cnt) - 1 in b.failing then 1 else 0
  {
    CodeOfLast(b, s.(rc := 0), Request(offset, offset + cnt, read), offset);
  }

  /** A 0 return means that every transfer succeeded. */
  ghost predicate Trustworthy(c: Config, devAddr: bv8, s: Run, offset: nat, cnt: nat, read: bool)
    requires ValidConfig(c) && offset < UINT && cnt < UINT && cnt <= |s.buffer|
  {
    forall failing: set<nat> ::
      var r := Rw(Bus(c, devAddr, failing), s, offset, cnt, read);
      r.rc == 0 ==> forall k: nat :: s.calls <= k < r.calls ==> k !in failing
  }

  lemma OneTransferIff(c: Config, offset: nat, end: nat)
    requires ValidConfig(c) && offset < end
    ensures Transfers(c, offset, end) == 1 <==> EepromLen(c, offset, end) == end - offset
  {
    LenBounds(c, offset, end);
    var next := offset + EepromLen(c, offset, end);
    if next < end {
      LenBounds(c, next, end);
      assert Transfers(c, next, end) >= 1;
    }
  }

  /** The return code can be trusted exactly for requests of one transfer: those that end within the page
      they start in and within the transfer limit. */
  lemma TrustworthyIff(c: Config, devAddr: bv8, s: Run, offset: nat, cnt: nat, read: bool)
    requires ValidConfig(c) && cnt <= |s.buffer| && 0 < cnt && offset + cnt < UINT
    ensures Trustworthy(c, devAddr, s, offset, cnt, read) <==> EepromLen(c, offset, offset + cnt) == cnt
  {
    OneTransferIff(c, offset, offset + cnt);
    if EepromLen(c, offset, offset + cnt) == cnt {
      forall failing: set<nat>
        ensures var r := Rw(Bus(c, devAddr, failing), s, offset, cnt, read);
                r.rc == 0 ==> forall k: nat :: s.calls <= k < r.calls ==> k !in failing
      {
        CodeOfLast(Bus(c, devAddr, failing), s.(rc := 0), Request(offset, offset + cnt, read), offset);
      }
    } else {
      var failing := {s.calls};
      CodeOfLast(Bus(c, devAddr, failing), s.(rc := 0), Request(offset, offset + cnt, read), offset);
      assert s.calls in failing;
    }
  }

  /** In every longer request a lost first chunk goes unreported: the write returns 0, the first cell keeps
      its old byte, and so the device is not left as the flat store would leave it. */
  lemma LostChunk(c: Config, devAddr: bv8, s: Run, offset: nat, cnt: nat)
    requires ValidConfig(c) && ChunksFit(c) && cnt <= |s.buffer| && 0 < cnt && offset + cnt < UINT
    requires EepromLen(c, offset, offset + cnt) < cnt
    requires Outside(Bus(c, devAddr, {s.calls}), FlatCell(c, devAddr, offset), offset + 1, offset + cnt)
    requires s.mem(FlatCell(c, devAddr, offset)) != s.buffer[0]
    ensures var r := Rw(Bus(c, devAddr, {s.calls}), s, offset, cnt, false);
            && r.rc == 0 && r.mem(FlatCell(c, devAddr, offset)) == s.mem(FlatCell(c, devAddr, offset))
            && r.mem != FlatWrite(c, devAddr, s.mem, offset, s.buffer, 0, cnt)
  {
    var b := Bus(c, devAddr, {s.calls});
    OneTransferIff(c, offset, offset + cnt);
    SuccessIffLastSucceeds(b, s, offset, cnt, false);
    FirstByteLost(b, s, offset, cnt);
    FirstByteStored(b, s.mem, offset, s.buffer, cnt);
  }

  /** The first byte of a write whose first transfer fails. */
  lemma FirstByteLost(b: Bus, s: Run, offset: nat, cnt: nat)
    requires ValidBus(b) && ChunksFit(b.c) && cnt <= |s.buffer| && 0 < cnt && offset + cnt < UINT
        && s.calls in b.failing
    requires Outside(b, CellOf(b, offset), offset + 1, offset + cnt)
    ensures Rw(b, s, offset, cnt, false).mem(CellOf(b, offset)) == s.mem(CellOf(b, offset))
  {
    var q := Request(offset, offset + cnt, false);
    WriteMeans(b, s.(rc := 0), q, offset);
    MovedChunks(b, s.calls, offset, q.end);
    FlatStoreOutside(b, s.mem, offset, s.buffer, offset, cnt, Moved(b, s.calls, offset, q.end), CellOf(b, offset));
  }

  /** The first byte of a flat write that does not come back to its cell. */
  lemma FirstByteStored(b: Bus, m: Memory, offset: nat, buffer: seq<Byte>, cnt: nat)
    requires 0 < cnt <= |buffer| && Outside(b, CellOf(b, offset), offset + 1, offset + cnt)
    ensures FlatWrite(b.c, b.devAddr, m, offset, buffer, 0, cnt)(CellOf(b, offset)) == buffer[0]
  {
    assert forall x: nat :: offset < x < offset + cnt ==> CellOf(b, x) != CellOf(b, offset);
    var l := LastStored(b, m, offset, buffer, cnt, 0);
  }

  /** For instance 33 bytes written at offset 0 of a device with pages of 32 bytes. */
  lemma LostChunkExample()
    ensures var c, s := Config(2, 5, 128), Run(_ => 0, seq(33, _ => 1), 0, 0);
            var r := Rw(Bus(c, 0x50, {0}), s, 0, 33, false);
            r.rc == 0 && r.mem(FlatCell(c, 0x50, 0)) == 0
  {
    var c, s := Config(2, 5, 128), Run(_ => 0, seq(33, _ => 1), 0, 0);
    assert Pow2(5) == 32;
    forall x: nat | 1 <= x < 33 ensures FlatCell(c, 0x50, x) != FlatCell(c, 0x50, 0) {
      assert Rem(x, 0x1_0000) == x;
    }
    LostChunk(c, 0x50, s, 0, 33);
  }
}
