/** Whole EEPROM reads and writes: the chunks that eeprom_rw moves, for every outcome of every one. */
module EepromTransfer {
  import opened Division
  import opened Eeprom

  const FAILURE := 1

  /** The device on its bus, and the numbers of the transfers that fail. */
  datatype Bus = Bus(c: Config, devAddr: bv8, failing: set<nat>)

  /** The device's contents, the caller's buffer, the transfers made so far, and the return code. */
  datatype Run = Run(mem: Memory, buffer: seq<Byte>, calls: nat, rc: int)

  /** A request up to offset `end`, the buffer holding the bytes from offset `start` on. */
  datatype Request = Request(start: nat, end: nat, read: bool)

  predicate ValidBus(b: Bus) {
    ValidConfig(b.c)
  }

  predicate Fits(q: Request, s: Run, offset: nat) {
    q.start <= offset && q.end <= q.start + |s.buffer|
  }

  /** The cell of an offset in flat memory. */
  function CellOf(b: Bus, x: nat): Cell {
    FlatCell(b.c, b.devAddr, x)
  }

  // ---------------------------------------------------------------- what the code computes

  /** A buffer with some of its bytes replaced. */
  function Overwritten(buffer: seq<Byte>, pos: nat, data: seq<Byte>): (r: seq<Byte>)
    requires pos + |data| <= |buffer|
    ensures |r| == |buffer|
    ensures forall p: nat :: p < |r| ==> r[p] == if pos <= p < pos + |data| then data[p - pos] else buffer[p]
  {
    seq(|buffer|, p requires 0 <= p < |buffer| => if pos <= p < pos + |data| then data[p - pos] else buffer[p])
  }

  /** One transfer; a failing one moves nothing. */
  function Block(b: Bus, s: Run, pos: nat, offset: nat, len: nat, read: bool): (r: Run)
    requires pos + len <= |s.buffer|
    ensures |r.buffer| == |s.buffer| && r.calls == s.calls + 1
  {
    var chip := ChipSelect(b.c, b.devAddr, offset);
    if s.calls in b.failing then s.(calls := s.calls + 1, rc := FAILURE)
    else if read then
      Run(s.mem, Overwritten(s.buffer, pos, DeviceRead(b.c, chip, s.mem, offset, len)), s.calls + 1, 0)
    else Run(DeviceWrite(b.c, chip, s.mem, offset, s.buffer, pos, len), s.buffer, s.calls + 1, 0)
  }

  /** The transfers from an offset on. */
  function RwFrom(b: Bus, s: Run, q: Request, offset: nat): (r: Run)
    requires ValidBus(b) && Fits(q, s, offset)
    ensures |r.buffer| == |s.buffer|
    decreases if offset < q.end then q.end - offset else 0
  {
    if offset >= q.end then s
    else
      LenBounds(b.c, offset, q.end);
      var len := EepromLen(b.c, offset, q.end);
      RwFrom(b, Block(b, s, offset - q.start, offset, len, q.read), q, offset + len)
  }

  /** offset + cnt in 32 bits. */
  function End(offset: nat, cnt: nat): nat
    requires offset < UINT && cnt < UINT
  {
    if offset + cnt < UINT then offset + cnt else offset + cnt - UINT
  }

  function Rw(b: Bus, s: Run, offset: nat, cnt: nat, read: bool): Run
    requires ValidBus(b) && offset < UINT && cnt < UINT && cnt <= |s.buffer|
  {
    RwFrom(b, s.(rc := 0), Request(offset, End(offset, cnt), read), offset)
  }

  lemma RwStep(b: Bus, s: Run, q: Request, offset: nat) returns (len: nat)
    requires ValidBus(b) && Fits(q, s, offset) && offset < q.end
    ensures len == EepromLen(b.c, offset, q.end) && 0 < len <= q.end - offset
    ensures RwFrom(b, s, q, offset) == RwFrom(b, Block(b, s, offset - q.start, offset, len, q.read), q, offset + len)
  {
    LenBounds(b.c, offset, q.end);
    len := EepromLen(b.c, offset, q.end);
  }

  // ---------------------------------------------------------------- which bytes move

  /** How many transfers a request takes. */
  function Transfers(c: Config, offset: nat, end: nat): nat
    requires ValidConfig(c)
    decreases if offset < end then end - offset else 0
  {
    if offset >= end then 0
    else
      LenBounds(c, offset, end);
      1 + Transfers(c, offset + EepromLen(c, offset, end), end)
  }

  /** The n offsets from one on. */
  function Range(from: nat, n: nat): (r: set<nat>)
    ensures forall x: nat :: x in r <==> from <= x < from + n
  {
    if n == 0 then {} else Range(from, n - 1) + {from + n - 1}
  }

  /** The offsets whose transfer succeeds, the next transfer being number `calls`. */
  function Moved(b: Bus, calls: nat, offset: nat, end: nat): (m: set<nat>)
    requires ValidBus(b)
    ensures forall x :: x in m ==> offset <= x < end
    decreases if offset < end then end - offset else 0
  {
    if offset >= end then {}
    else
      LenBounds(b.c, offset, end);
      var len := EepromLen(b.c, offset, end);
      (if calls in b.failing then {} else Range(offset, len)) + Moved(b, calls + 1, offset + len, end)
  }

  /** The first chunk and the others. */
  lemma MovedChunks(b: Bus, calls: nat, offset: nat, end: nat)
    requires ValidBus(b) && offset < end
    ensures var len := EepromLen(b.c, offset, end);
            && 0 < len <= end - offset
            && (forall x: nat ::
                  offset <= x < offset + len ==> (x in Moved(b, calls, offset, end) <==> calls !in b.failing))
            && (forall x: nat :: offset + len <= x < end ==>
                  (x in Moved(b, calls + 1, offset + len, end) <==> x in Moved(b, calls, offset, end)))
  {
    LenBounds(b.c, offset, end);
  }

  /** No transfer of a request fails. */
  ghost predicate AllSucceed(b: Bus, calls: nat, offset: nat, end: nat)
    requires ValidBus(b)
  {
    forall k: nat :: calls <= k < calls + Transfers(b.c, offset, end) ==> k !in b.failing
  }

  lemma {:induction false} AllMoved(b: Bus, calls: nat, offset: nat, end: nat)
    requires ValidBus(b) && AllSucceed(b, calls, offset, end)
    ensures forall x: nat :: x in Moved(b, calls, offset, end) <==> offset <= x < end
    decreases if offset < end then end - offset else 0
  {
    if offset < end {
      LenBounds(b.c, offset, end);
      var len := EepromLen(b.c, offset, end);
      assert calls !in b.failing;
      AllMoved(b, calls + 1, offset + len, end);
    }
  }

  // ---------------------------------------------------------------- writing

  /** Flat memory after the n bytes from an offset on are stored, those that were moved. */
  function FlatStore(b: Bus, m: Memory, start: nat, buffer: seq<Byte>, offset: nat, n: nat, moved: set<nat>): Memory
    requires start <= offset && offset - start + n <= |buffer|
  {
    if n == 0 then m
    else
      var before := FlatStore(b, m, start, buffer, offset, n - 1, moved);
      var x := offset + n - 1;
      if x in moved then Put(before, CellOf(b, x), buffer[x - start]) else before
  }

  lemma {:induction false} FlatStoreSplit(b: Bus, m: Memory, start: nat, buffer: seq<Byte>, offset: nat, i: nat,
                                          j: nat, moved: set<nat>)
    requires start <= offset && offset - start + i + j <= |buffer|
    ensures FlatStore(b, m, start, buffer, offset, i + j, moved)
         == FlatStore(b, FlatStore(b, m, start, buffer, offset, i, moved), start, buffer, offset + i, j, moved)
  {
    if j > 0 {
      FlatStoreSplit(b, m, start, buffer, offset, i, j - 1, moved);
    }
  }

  /** Only the offsets in the range matter. */
  lemma {:induction false} FlatStoreLocal(b: Bus, m: Memory, start: nat, buffer: seq<Byte>, offset: nat, n: nat,
                                          moved: set<nat>, moved': set<nat>)
    requires start <= offset && offset - start + n <= |buffer|
    requires forall x: nat :: offset <= x < offset + n ==> (x in moved <==> x in moved')
    ensures FlatStore(b, m, start, buffer, offset, n, moved) == FlatStore(b, m, start, buffer, offset, n, moved')
  {
    if n > 0 {
      FlatStoreLocal(b, m, start, buffer, offset, n - 1, moved, moved');
    }
  }

  /** A store of i bytes followed by one of j bytes. */
  lemma FlatStoreJoin(b: Bus, m: Memory, start: nat, buffer: seq<Byte>, offset: nat, i: nat, j: nat, rest: set<nat>,
                      moved: set<nat>)
    requires start <= offset && offset - start + i + j <= |buffer|
    requires forall x: nat :: offset + i <= x < offset + i + j ==> (x in rest <==> x in moved)
    ensures FlatStore(b, FlatStore(b, m, start, buffer, offset, i, moved), start, buffer, offset + i, j, rest)
         == FlatStore(b, m, start, buffer, offset, i + j, moved)
  {
    FlatStoreLocal(b, FlatStore(b, m, start, buffer, offset, i, moved), start, buffer, offset + i, j, rest, moved);
    FlatStoreSplit(b, m, start, buffer, offset, i, j, moved);
  }

  /** With all of them moved it is the flat write, with none it is nothing. */
  lemma {:induction false} FlatStoreAllOrNone(b: Bus, m: Memory, start: nat, buffer: seq<Byte>, offset: nat, n: nat,
                                              moved: set<nat>)
    requires start <= offset && offset - start + n <= |buffer|
    ensures (forall x: nat :: offset <= x < offset + n ==> x in moved)
            ==> FlatStore(b, m, start, buffer, offset, n, moved)
                == FlatWrite(b.c, b.devAddr, m, offset, buffer, offset - start, n)
    ensures (forall x: nat :: offset <= x < offset + n ==> x !in moved)
            ==> FlatStore(b, m, start, buffer, offset, n, moved) == m
  {
    if n > 0 {
      FlatStoreAllOrNone(b, m, start, buffer, offset, n - 1, moved);
    }
  }

  /** One write transfer on flat memory. */
  lemma BlockIsFlat(b: Bus, s: Run, q: Request, offset: nat, len: nat)
    requires ValidBus(b) && ChunksFit(b.c) && Fits(q, s, offset) && offset < q.end
    requires len == EepromLen(b.c, offset, q.end) && len <= q.end - offset
    ensures var t := Block(b, s, offset - q.start, offset, len, false);
            && t.buffer == s.buffer
            && t.mem == FlatStore(b, s.mem, q.start, s.buffer, offset, len, Moved(b, s.calls, offset, q.end))
  {
    ChunkStays(b.c, offset, q.end);
    TransferIsFlat(b.c, b.devAddr, s.mem, offset, s.buffer, offset - q.start, len);
    MovedChunks(b, s.calls, offset, q.end);
    FlatStoreAllOrNone(b, s.mem, q.start, s.buffer, offset, len, Moved(b, s.calls, offset, q.end));
  }

  /** What a run of write transfers leaves. */
  ghost predicate Wrote(b: Bus, s: Run, q: Request, offset: nat, r: Run)
    requires ValidBus(b) && Fits(q, s, offset) && offset <= q.end
  {
    && r.mem == FlatStore(b, s.mem, q.start, s.buffer, offset, q.end - offset, Moved(b, s.calls, offset, q.end))
    && r.buffer == s.buffer
  }

  /** A transfer and the flat store of the rest make one flat store. */
  lemma WriteJoins(b: Bus, s: Run, q: Request, offset: nat, len: nat, r: Run)
    requires ValidBus(b) && ChunksFit(b.c) && Fits(q, s, offset) && offset < q.end
    requires len == EepromLen(b.c, offset, q.end) && 0 < len <= q.end - offset
    requires Wrote(b, Block(b, s, offset - q.start, offset, len, false), q, offset + len, r)
    ensures Wrote(b, s, q, offset, r)
  {
    BlockIsFlat(b, s, q, offset, len);
    MovedChunks(b, s.calls, offset, q.end);
    FlatStoreJoin(b, s.mem, q.start, s.buffer, offset, len, q.end - offset - len,
                  Moved(b, s.calls + 1, offset + len, q.end), Moved(b, s.calls, offset, q.end));
  }

  lemma WroteNothing(b: Bus, s: Run, q: Request)
    requires ValidBus(b) && q.start <= q.end <= q.start + |s.buffer|
    ensures Wrote(b, s, q, q.end, s)
  {
  }

  lemma {:induction false} RunWrote(b: Bus, s: Run, q: Request, offset: nat) returns (r: Run)
    requires ValidBus(b) && ChunksFit(b.c) && Fits(q, s, offset) && offset <= q.end && !q.read
    ensures r == RwFrom(b, s, q, offset) && Wrote(b, s, q, offset, r)
    decreases q.end - offset
  {
    if offset == q.end {
      r := s;
      WroteNothing(b, s, q);
    } else {
      var len := RwStep(b, s, q, offset);
      r := RunWrote(b, Block(b, s, offset - q.start, offset, len, false), q, offset + len);
      WriteJoins(b, s, q, offset, len, r);
    }
  }

  /** MAIN RESULT on writing: whichever transfers fail, the page-wrapping device is left as flat memory
      would be after storing exactly the bytes whose transfers succeed. */
  lemma WriteMeans(b: Bus, s: Run, q: Request, offset: nat)
    requires ValidBus(b) && ChunksFit(b.c) && Fits(q, s, offset) && offset <= q.end && !q.read
    ensures RwFrom(b, s, q, offset).mem
         == FlatStore(b, s.mem, q.start, s.buffer, offset, q.end - offset, Moved(b, s.calls, offset, q.end))
    ensures RwFrom(b, s, q, offset).buffer == s.buffer
  {
    var r := RunWrote(b, s, q, offset);
  }

  /** When no transfer of the request fails, writing in chunks is one store to flat memory. */
  lemma WriteIsFlat(b: Bus, s: Run, offset: nat, cnt: nat)
    requires ValidBus(b) && ChunksFit(b.c) && cnt <= |s.buffer| && offset + cnt < UINT
    requires AllSucceed(b, s.calls, offset, offset + cnt)
    ensures Rw(b, s, offset, cnt, false).mem == FlatWrite(b.c, b.devAddr, s.mem, offset, s.buffer, 0, cnt)
    ensures Rw(b, s, offset, cnt, false).buffer == s.buffer
  {
    var q := Request(offset, offset + cnt, false);
    WriteMeans(b, s.(rc := 0), q, offset);
    AllMoved(b, s.calls, offset, q.end);
    FlatStoreAllOrNone(b, s.mem, offset, s.buffer, offset, cnt, Moved(b, s.calls, offset, q.end));
  }

  ghost predicate Outside(b: Bus, cell: Cell, offset: nat, end: nat) {
    forall x: nat :: offset <= x < end ==> CellOf(b, x) != cell
  }

  lemma {:induction false} FlatStoreOutside(b: Bus, m: Memory, start: nat, buffer: seq<Byte>, offset: nat, n: nat,
                                            moved: set<nat>, cell: Cell)
    requires start <= offset && offset - start + n <= |buffer|
    requires forall x: nat :: offset <= x < offset + n && x in moved ==> CellOf(b, x) != cell
    ensures FlatStore(b, m, start, buffer, offset, n, moved)(cell) == m(cell)
  {
    if n > 0 {
      FlatStoreOutside(b, m, start, buffer, offset, n - 1, moved, cell);
    }
  }

  // ---------------------------------------------------------------- reading

  /** The buffer after the moved bytes are read from flat memory. */
  function FlatFill(b: Bus, m: Memory, start: nat, buffer: seq<Byte>, moved: set<nat>): (r: seq<Byte>)
    ensures |r| == |buffer|
    ensures forall p: nat :: p < |r| ==> r[p] == if start + p in moved then m(CellOf(b, start + p)) else buffer[p]
  {
    seq(|buffer|, p requires 0 <= p < |buffer| => if start + p in moved then m(CellOf(b, start + p)) else buffer[p])
  }

  /** Reading n bytes in one place of the buffer. */
  lemma FillRange(b: Bus, m: Memory, start: nat, buffer: seq<Byte>, offset: nat, n: nat)
    requires start <= offset && offset - start + n <= |buffer|
    ensures FlatFill(b, m, start, buffer, Range(offset, n))
         == Overwritten(buffer, offset - start, FlatRead(b.c, b.devAddr, m, offset, n))
  {
  }

  lemma FillNothing(b: Bus, m: Memory, start: nat, buffer: seq<Byte>)
    ensures FlatFill(b, m, start, buffer, {}) == buffer
  {
  }

  /** Only membership of the offsets in the buffer matters. */
  lemma FillSame(b: Bus, m: Memory, start: nat, buffer: seq<Byte>, moved: set<nat>, moved': set<nat>)
    requires forall x: nat :: x in moved <==> x in moved'
    ensures FlatFill(b, m, start, buffer, moved) == FlatFill(b, m, start, buffer, moved')
  {
  }

  /** One read transfer on flat memory. */
  lemma ReadBlockIsFlat(b: Bus, s: Run, q: Request, offset: nat, len: nat)
    requires ValidBus(b) && ChunksFit(b.c) && Fits(q, s, offset) && offset < q.end
    requires len == EepromLen(b.c, offset, q.end) && len <= q.end - offset
    ensures var t := Block(b, s, offset - q.start, offset, len, true);
            && t.mem == s.mem
            && t.buffer == FlatFill(b, s.mem, q.start, s.buffer,
                                    if s.calls in b.failing then {} else Range(offset, len))
  {
    ChunkStays(b.c, offset, q.end);
    ReadTransferIsFlat(b.c, b.devAddr, s.mem, offset, len);
    FillRange(b, s.mem, q.start, s.buffer, offset, len);
    FillNothing(b, s.mem, q.start, s.buffer);
  }

  lemma FlatFillTwice(b: Bus, m: Memory, start: nat, buffer: seq<Byte>, first: set<nat>, second: set<nat>)
    ensures FlatFill(b, m, start, FlatFill(b, m, start, buffer, first), second)
         == FlatFill(b, m, start, buffer, first + second)
  {
  }

  /** What a run of read transfers leaves. */
  ghost predicate FilledFrom(b: Bus, s: Run, q: Request, offset: nat, r: Run)
    requires ValidBus(b)
  {
    r.buffer == FlatFill(b, s.mem, q.start, s.buffer, Moved(b, s.calls, offset, q.end)) && r.mem == s.mem
  }

  /** A transfer and the flat read of the rest make one flat read. */
  lemma ReadJoins(b: Bus, s: Run, q: Request, offset: nat, len: nat, r: Run)
    requires ValidBus(b) && ChunksFit(b.c) && Fits(q, s, offset) && offset < q.end
    requires len == EepromLen(b.c, offset, q.end) && 0 < len <= q.end - offset
    requires FilledFrom(b, Block(b, s, offset - q.start, offset, len, true), q, offset + len, r)
    ensures FilledFrom(b, s, q, offset, r)
  {
    ReadBlockIsFlat(b, s, q, offset, len);
    FlatFillTwice(b, s.mem, q.start, s.buffer, if s.calls in b.failing then {} else Range(offset, len),
                  Moved(b, s.calls + 1, offset + len, q.end));
  }

  lemma {:induction false} RunFilled(b: Bus, s: Run, q: Request, offset: nat) returns (r: Run)
    requires ValidBus(b) && ChunksFit(b.c) && Fits(q, s, offset) && q.read
    ensures r == RwFrom(b, s, q, offset) && FilledFrom(b, s, q, offset, r)
    decreases if offset < q.end then q.end - offset else 0
  {
    if offset >= q.end {
      r := s;
      FillNothing(b, s.mem, q.start, s.buffer);
    } else {
      var len := RwStep(b, s, q, offset);
      r := RunFilled(b, Block(b, s, offset - q.start, offset, len, true), q, offset + len);
      ReadJoins(b, s, q, offset, len, r);
    }
  }

  /** MAIN RESULT on reading: whichever transfers fail, the buffer receives from flat memory exactly the
      bytes whose transfers succeed, and the device keeps its contents. */
  lemma ReadMeans(b: Bus, s: Run, q: Request, offset: nat)
    requires ValidBus(b) && ChunksFit(b.c) && Fits(q, s, offset) && q.read
    ensures RwFrom(b, s, q, offset).buffer == FlatFill(b, s.mem, q.start, s.buffer, Moved(b, s.calls, offset, q.end))
    ensures RwFrom(b, s, q, offset).mem == s.mem
  {
    var r := RunFilled(b, s, q, offset);
  }

  /** When no transfer of the request fails, reading in chunks is one read of flat memory. */
  lemma ReadIsFlat(b: Bus, s: Run, offset: nat, cnt: nat)
    requires ValidBus(b) && ChunksFit(b.c) && cnt <= |s.buffer| && offset + cnt < UINT
    requires AllSucceed(b, s.calls, offset, offset + cnt)
    ensures Rw(b, s, offset, cnt, true).buffer == FlatRead(b.c, b.devAddr, s.mem, offset, cnt) + s.buffer[cnt..]
    ensures Rw(b, s, offset, cnt, true).mem == s.mem
  {
    ReadMeans(b, s.(rc := 0), Request(offset, offset + cnt, true), offset);
    AllMoved(b, s.calls, offset, offset + cnt);
    FillFront(b, s.mem, offset, s.buffer, cnt, Moved(b, s.calls, offset, offset + cnt));
  }

  /** All bytes of a request, at the front of the buffer. */
  lemma FillFront(b: Bus, m: Memory, offset: nat, buffer: seq<Byte>, cnt: nat, moved: set<nat>)
    requires cnt <= |buffer| && forall x: nat :: x in moved <==> offset <= x < offset + cnt
    ensures FlatFill(b, m, offset, buffer, moved) == FlatRead(b.c, b.devAddr, m, offset, cnt) + buffer[cnt..]
  {
    FillSame(b, m, offset, buffer, moved, Range(offset, cnt));
    FillRange(b, m, offset, buffer, offset, cnt);
    OverwrittenFront(buffer, FlatRead(b.c, b.devAddr, m, offset, cnt));
  }

  lemma OverwrittenFront(buffer: seq<Byte>, data: seq<Byte>)
    requires |data| <= |buffer|
    ensures Overwritten(buffer, 0, data) == data + buffer[|data|..]
  {
  }

  // ---------------------------------------------------------------- frame

  /** Whichever transfers fail, no cell outside the range changes, and a read changes none. */
  lemma OthersUnchanged(b: Bus, s: Run, q: Request, offset: nat, cell: Cell)
    requires ValidBus(b) && ChunksFit(b.c) && Fits(q, s, offset)
    requires q.read || Outside(b, cell, offset, q.end)
    ensures RwFrom(b, s, q, offset).mem(cell) == s.mem(cell)
  {
    if q.read {
      ReadMeans(b, s, q, offset);
    } else if offset < q.end {
      WriteMeans(b, s, q, offset);
      FlatStoreOutside(b, s.mem, q.start, s.buffer, offset, q.end - offset, Moved(b, s.calls, offset, q.end), cell);
    }
  }

  // ---------------------------------------------------------------- the loop

  /** What the loop still has to do leads to the whole result. */
  ghost predicate Underway(whole: Run, b: Bus, s: Run, q: Request, at: nat) {
    ValidBus(b) && Fits(q, s, at) && whole == RwFrom(b, s, q, at)
  }

  lemma Begin(b: Bus, s: Run, offset: nat, cnt: nat, read: bool)
    requires ValidBus(b) && offset < UINT && cnt < UINT && cnt <= |s.buffer|
    ensures Underway(Rw(b, s, offset, cnt, read), b, s.(rc := 0), Request(offset, End(offset, cnt), read), offset)
  {
  }

  lemma Continue(whole: Run, b: Bus, s: Run, q: Request, at: nat)
    requires Underway(whole, b, s, q, at) && at < q.end
    ensures var len := EepromLen(b.c, at, q.end);
            && 0 < len <= q.end - at
            && Underway(whole, b, Block(b, s.(rc := 0), at - q.start, at, len, q.read), q, at + len)
  {
    var len := RwStep(b, s, q, at);
    assert Block(b, s.(rc := 0), at - q.start, at, len, q.read) == Block(b, s, at - q.start, at, len, q.read);
  }

  lemma Finish(whole: Run, b: Bus, s: Run, q: Request, at: nat)
    requires Underway(whole, b, s, q, at) && at >= q.end
    ensures whole == s
  {
  }

  /** The EEPROM behind its bus. */
  class Device {
    const bus: Bus
    var mem: Memory
    var calls: nat

    constructor (bus: Bus, mem: Memory)
      requires ValidBus(bus)
      ensures this.bus == bus && this.mem == mem && calls == 0
    {
      this.bus, this.mem, calls := bus, mem, 0;
    }

    function State(buffer: seq<Byte>, rc: int): Run
      reads this
    {
      Run(mem, buffer, calls, rc)
    }

    /** The address bytes of a transfer. */
    method EepromAddr(offset: nat, addr: array<bv8>) returns (alen: nat)
      requires ValidBus(bus) && offset < UINT && addr.Length == 3
      modifies addr
      ensures alen == bus.c.addrLen + 1 && addr[0] == ChipSelect(bus.c, bus.devAddr, offset)
      ensures Selects(addr[0], bus.devAddr, LowByte(BlockOf(bus.c, offset)))
      ensures addr[alen - 1] == LowByte(offset)
      ensures alen == 3 ==> addr[1] == LowByte(Quot(offset, 0x100))
    {
      var blkOff := LowByte(offset);
      if bus.c.addrLen == 1 {
        addr[0] := LowByte(Quot(offset, 0x100));
        addr[1] := blkOff;
        alen := 2;
      } else {
        addr[0] := LowByte(Quot(offset, 0x1_0000));
        addr[1] := LowByte(Quot(offset, 0x100));
        addr[2] := blkOff;
        alen := 3;
      }
      addr[0] := InsertAddress(bus.c, addr[0], bus.devAddr, offset);
    }

    method EepromRwBlock(offset: nat, chip: bv8, buffer: array<Byte>, pos: nat, len: nat, read: bool) returns (rc: int)
      requires pos + len <= buffer.Length && chip == ChipSelect(bus.c, bus.devAddr, offset)
      modifies this, buffer
      ensures State(buffer[..], rc) == Block(bus, old(Run(mem, buffer[..], calls, 0)), pos, offset, len, read)
    {
      rc := if calls in bus.failing then FAILURE else 0;
      if rc == 0 {
        if read {
          var data := DeviceRead(bus.c, chip, mem, offset, len);
          forall i | 0 <= i < len {
            buffer[pos + i] := data[i];
          }
          assert buffer[..] == Overwritten(old(buffer[..]), pos, data);
        } else {
          mem := DeviceWrite(bus.c, chip, mem, offset, buffer[..], pos, len);
        }
      }
      calls := calls + 1;
    }

    method EepromRw(offset: nat, buffer: array<Byte>, cnt: nat, read: bool) returns (rc: int)
      requires ValidBus(bus) && offset < UINT && cnt < UINT && cnt <= buffer.Length
      modifies this, buffer
      ensures State(buffer[..], rc) == Rw(bus, old(Run(mem, buffer[..], calls, 0)), offset, cnt, read)
    {
      ghost var s := State(buffer[..], 0);
      ghost var whole, q := Rw(bus, s, offset, cnt, read), Request(offset, End(offset, cnt), read);
      Begin(bus, s, offset, cnt, read);
      var end := End(offset, cnt);
      var at, pos := offset, 0;
      var addr := new bv8[3];
      rc := 0;
      while at < end
        invariant pos == at - offset && end <= offset + buffer.Length && end < UINT && fresh(addr)
        invariant s == State(buffer[..], rc) && Underway(whole, bus, s, q, at)
        decreases if at < end then end - at else 0
      {
        Continue(whole, bus, s, q, at);
        var alen := EepromAddr(at, addr);
        var len := EepromLen(bus.c, at, end);
        s := Block(bus, s.(rc := 0), pos, at, len, read);
        rc := EepromRwBlock(at, addr[0], buffer, pos, len, read);
        pos := pos + len;
        at := at + len;
      }
      Finish(whole, bus, s, q, at);
    }

    method EepromRead(offset: nat, buffer: array<Byte>, cnt: nat) returns (rc: int)
      requires ValidBus(bus) && offset < UINT && cnt < UINT && cnt <= buffer.Length
      modifies this, buffer
      ensures State(buffer[..], rc) == Rw(bus, old(Run(mem, buffer[..], calls, 0)), offset, cnt, true)
      ensures ChunksFit(bus.c)
              ==> mem == old(mem)
                  && buffer[..] == FlatFill(bus, mem, offset, old(buffer[..]),
                                            Moved(bus, old(calls), offset, End(offset, cnt)))
      ensures ChunksFit(bus.c) && offset + cnt < UINT && AllSucceed(bus, old(calls), offset, offset + cnt)
              ==> buffer[..] == FlatRead(bus.c, bus.devAddr, mem, offset, cnt) + old(buffer[..])[cnt..]
    {
      ghost var s := State(buffer[..], 0);
      rc := EepromRw(offset, buffer, cnt, true);
      if ChunksFit(bus.c) {
        ReadMeans(bus, s, Request(offset, End(offset, cnt), true), offset);
        if offset + cnt < UINT && AllSucceed(bus, s.calls, offset, offset + cnt) {
          ReadIsFlat(bus, s, offset, cnt);
        }
      }
    }

    method EepromWrite(offset: nat, buffer: array<Byte>, cnt: nat) returns (rc: int)
      requires ValidBus(bus) && offset < UINT && cnt < UINT && cnt <= buffer.Length
      modifies this, buffer
      ensures State(buffer[..], rc) == Rw(bus, old(Run(mem, buffer[..], calls, 0)), offset, cnt, false)
      ensures ChunksFit(bus.c) && offset + cnt < UINT
              ==> buffer[..] == old(buffer[..])
                  && mem == FlatStore(bus, old(mem), offset, buffer[..], offset, cnt,
                                      Moved(bus, old(calls), offset, offset + cnt))
      ensures ChunksFit(bus.c) && offset + cnt < UINT && AllSucceed(bus, old(calls), offset, offset + cnt)
              ==> mem == FlatWrite(bus.c, bus.devAddr, old(mem), offset, buffer[..], 0, cnt)
    {
      ghost var s := State(buffer[..], 0);
      rc := EepromRw(offset, buffer, cnt, false);
      if ChunksFit(bus.c) && offset + cnt < UINT {
        WriteMeans(bus, s, Request(offset, offset + cnt, false), offset);
        if AllSucceed(bus, s.calls, offset, offset + cnt) {
          WriteIsFlat(bus, s, offset, cnt);
        }
      }
    }
  }
}
