/** The floppy read engine on a controller: its byte loop, its two retry levels and its chunk loop. */
module FloppyRead {
  import opened Division
  import opened FloppyGeometry
  import opened FloppyEngine

  /** The controller and everything it answers; `pollOk(n)` says whether the n-th answered poll
      delivers a byte, `answer(n)` how the n-th command goes. */
  class Controller {
    const geo: Geometry
    const disk: Disk
    const gap: nat
    const pollOk: nat -> bool
    const answer: nat -> Answer

    var polls: nat
    /** The commands so far. */
    var log: seq<CommandKind>
    /** The track the heads stand on. */
    var cylinder: nat
    var irqOn: bool
    var motorOn: bool

    constructor (geo: Geometry, disk: Disk, gap: nat, pollOk: nat -> bool, answer: nat -> Answer, irqOn: bool)
      ensures this.geo == geo && this.disk == disk && this.gap == gap && this.pollOk == pollOk && this.answer == answer
      ensures polls == 0 && log == [] && this.irqOn == irqOn && !motorOn
    {
      this.geo, this.disk, this.gap, this.pollOk, this.answer := geo, disk, gap, pollOk, answer;
      polls, log, cylinder := 0, [], 0;
      this.irqOn, motorOn := irqOn, false;
    }

    ghost function Seen(): View
      reads this
    {
      View(Errors(pollOk, polls), log, polls > 0 && !pollOk(polls - 1))
    }

    /** One command and how it goes. A confirmed seek puts the heads on the track asked for; any other seek
        or recalibration leaves them anywhere. */
    method Command(kind: CommandKind, track: nat) returns (a: Answer)
      modifies this`log, this`cylinder
      ensures log == old(log) + [kind] && a == answer(|old(log)|)
      ensures kind == ReadData ==> cylinder == old(cylinder)
      ensures kind == Seek && a == Done ==> cylinder == track
    {
      a := answer(|log|);
      log := log + [kind];
      if kind == Seek && a == Done {
        cylinder := track;
      } else if kind != ReadData {
        cylinder := *;
      }
    }
  }

  /** pCMD as far as reading uses it. */
  class FdcCommand {
    var blnr: nat
    var drive: nat
  }

  /** The heads stand on the track that a READ at the current block addresses. */
  ghost predicate OnTrack(c: Controller, cmd: FdcCommand)
    reads c, cmd
  {
    ValidShape(c.geo) && c.cylinder == ReadAt(c.geo, cmd.drive, c.gap, cmd.blnr).track
  }

  /** fdc_seek: to the track of pCMD->blnr, as the byte in which it is sent. */
  method FdcSeek(c: Controller, cmd: FdcCommand) returns (a: Answer)
    requires ValidShape(c.geo)
    modifies c`log, c`cylinder
    ensures c.log == old(c.log) + [Seek] && a == c.answer(|old(c.log)|)
    ensures a == Done ==> OnTrack(c, cmd)
  {
    a := c.Command(Seek, TrackByte(ToChs(c.geo, cmd.blnr).track));
  }

  /** The byte loop for one READ: the data of the chunk goes to buffer[offset..offset + len], up
      to the first transfer error. */
  method Transfer(c: Controller, buffer: array<int>, offset: nat, len: nat, cmd: ReadCommand) returns (complete: bool)
    requires offset + len <= buffer.Length
    modifies c`polls, buffer
    ensures complete ==>
              forall k :: offset <= k < offset + len ==> buffer[k] == Delivered(c.disk, c.cylinder, cmd, k - offset)
    ensures forall k :: 0 <= k < buffer.Length && !(offset <= k < offset + len) ==> buffer[k] == old(buffer[k])
    ensures c.Seen().errors == old(c.Seen().errors) + if complete then 0 else 1
    ensures !complete ==> c.Seen().pollFailed
  {
    var i := 0;
    while i < len
      invariant i <= len
      invariant Errors(c.pollOk, c.polls) == Errors(c.pollOk, old(c.polls))
      invariant forall k :: offset <= k < offset + i ==> buffer[k] == Delivered(c.disk, c.cylinder, cmd, k - offset)
      invariant forall k :: 0 <= k < buffer.Length && !(offset <= k < offset + len) ==> buffer[k] == old(buffer[k])
    {
      var delivered := c.pollOk(c.polls);
      c.polls := c.polls + 1;
      if !delivered {
        return false;
      }
      buffer[offset + i] := Delivered(c.disk, c.cylinder, cmd, i);
      i := i + 1;
    }
    return true;
  }

  // ---------------------------------------------------------------- the methods

  ghost function StateOf(run: seq<Read>, cmd: FdcCommand, blocks: nat, offset: nat, buffer: array<int>): State
    reads cmd, buffer
  {
    State(run, cmd.blnr, blocks, offset, buffer[..])
  }

  /** The request that a call on a controller is. */
  ghost function RequestOf(c: Controller, drive: nat, from: nat, total: nat, before: seq<int>): Request {
    Request(c.geo, c.disk, c.gap, c.answer, drive, from, total, before)
  }

  /** sect_size * readblk */
  function ByteCount(g: Geometry, readblk: nat): (n: nat)
    ensures n == Bytes(g, readblk)
  {
    BytesIsProduct(g, readblk);
    SectSize(g.sectCode) * readblk
  }

  /** The two retry levels: up to four plain retries, then a recalibration; four of those. */
  method Recover(c: Controller, r: Retries, ghost q: Request, ghost start: View, ghost v: View, ghost s: State)
    returns (r': Retries, phase: Phase)
    requires Engine(q, s) && Commanded(q, start, v, Completed(s.run) + 1, r, AtSeek) && q.answer == c.answer
    requires v.log[|v.log| - 1] == ReadData && c.Seen() == v.(errors := v.errors + 1, pollFailed := true)
    modifies c`log, c`cylinder
    ensures Reached(q, start, c.Seen(), s, r', phase)
    ensures phase.AtRead? ==> c.cylinder == old(c.cylinder)
    ensures !phase.Ended? ==> 5 * r'.cal + r'.rw == 5 * r.cal + r.rw + 1
  {
    r' := r.(rw := r.rw + 1);
    if r.rw <= FDC_RW_RETRIES {
      PlainRetry(q, start, v, Completed(s.run), r);
      return r', AtRead;
    }
    r' := r'.(cal := r.cal + 1);
    if r.cal > FDC_CAL_RETRIES {
      LastError(q, start, v, Completed(s.run) + 1, r);
      EngineDelivers(q, s, TooManyErrors);
      return r', Ended(TooManyErrors);
    }
    Recalibrates(q, start, v, Completed(s.run) + 1, r);
    var a := c.Command(Recalibrate, 0);
    assert c.Seen() == v.(errors := v.errors + 1, pollFailed := true, log := v.log + [Recalibrate]);
    if a == NoResponse {
      EngineDelivers(q, s, CommandFailed);
      return r', Ended(CommandFailed);
    }
    return Retries(0, r'.cal), AtSeek;
  }

  /** Before a seek: `retrycal`. */
  method SeekNext(c: Controller, cmd: FdcCommand, ghost q: Request, ghost start: View, ghost s: State,
                  ghost r: Retries)
    returns (phase: Phase)
    requires Underway(q, start, c.Seen(), s, r, AtSeek) && q.answer == c.answer && q.geo == c.geo
    modifies c`log, c`cylinder
    ensures Reached(q, start, c.Seen(), s, r, phase) && phase != AtSeek
    ensures phase.AtRead? ==> OnTrack(c, cmd)
  {
    ghost var v := c.Seen();
    SeekStep(q, start, v, s, r);
    var a := FdcSeek(c, cmd);
    assert c.Seen() == v.(log := v.log + [Seek]);
    phase := if a == Done then AtRead else Ended(if a == NoResponse then CommandFailed else LaterSeekBad);
  }

  /** The chunk that follows a complete one. */
  method NextSize(g: Geometry, ghost blnr: nat, ghost asked: nat, blocks: nat) returns (readblk: nat)
    requires g.sect > 0 && ChunkSize(g, blnr, asked) < asked && blocks == asked - ChunkSize(g, blnr, asked)
    ensures readblk == ChunkSize(g, blnr + ChunkSize(g, blnr, asked), blocks)
  {
    NextChunk(g, blnr, asked);
    readblk := g.sect;
    if readblk > blocks {
      readblk := blocks;
    }
  }

  /** One READ: its command and its byte loop. */
  method Attempt(c: Controller, cmd: FdcCommand, buffer: array<int>, offset: nat, readblk: nat, ghost q: Request,
                 ghost s: State)
    returns (r: Read)
    requires Engine(q, s) && s.blnr == cmd.blnr && s.offset == offset && s.buffer == buffer[..]
    requires q.geo == c.geo && q.disk == c.disk && q.gap == c.gap && q.drive == cmd.drive
    requires readblk == ChunkSize(q.geo, s.blnr, s.blocks) && OnTrack(c, cmd)
    modifies c`polls, buffer
    ensures r == NextRead(q, s, r.complete) && readblk <= s.blocks
    ensures Engine(q, if r.complete then AfterChunk(q, s, buffer[..]) else AfterFailure(q, s, buffer[..]))
    ensures c.Seen().errors == old(c.Seen().errors) + if r.complete then 0 else 1
    ensures !r.complete ==> c.Seen().pollFailed
  {
    ChunkFits(q, s);
    ChunkStaysOnSide(q, s, true);
    var readCmd := ReadAt(c.geo, cmd.drive, c.gap, cmd.blnr);
    var len := ByteCount(c.geo, readblk);
    var complete := Transfer(c, buffer, offset, len, readCmd);
    r := Read(cmd.blnr, readblk, c.cylinder, readCmd, complete);
    if complete {
      AttemptComplete(q, s, buffer[..]);
    } else {
      AttemptFailed(q, s, buffer[..]);
    }
  }

  /** The READ command itself. */
  method IssueRead(c: Controller, ghost q: Request, ghost start: View, ghost s: State, ghost r: Retries)
    returns (issued: bool)
    requires Underway(q, start, c.Seen(), s, r, AtRead) && q.answer == c.answer
    modifies c`log, c`cylinder
    ensures c.Seen() == old(c.Seen()).(log := old(c.log) + [ReadData]) && c.cylinder == old(c.cylinder)
    ensures issued <==> q.answer(|old(c.log)|) != NoResponse
    ensures !issued ==> ReadPromise(q, start, c.Seen(), s, CommandFailed)
  {
    ghost var v := c.Seen();
    var a := c.Command(ReadData, 0);
    issued := a != NoResponse;
    if !issued {
      ReadUnanswered(q, start, v, s, r);
    }
  }

  /** The bookkeeping of a complete chunk. */
  method Advance(c: Controller, cmd: FdcCommand, blocks: nat, offset: nat, readblk: nat,
                 ghost q: Request, ghost s: State, ghost buffer: seq<int>)
    returns (blocks': nat, offset': nat, readblk': nat)
    requires ValidShape(q.geo) && q.geo == c.geo && s.blnr == cmd.blnr && s.blocks == blocks && s.offset == offset
    requires readblk == ChunkSize(q.geo, s.blnr, s.blocks) <= blocks
    modifies cmd`blnr
    ensures AfterChunk(q, s, buffer) == State(s.run + [NextRead(q, s, true)], cmd.blnr, blocks', offset', buffer)
    ensures blocks' > 0 ==> readblk' == ChunkSize(q.geo, cmd.blnr, blocks') && blocks' < blocks
  {
    ChunkStaysOnSide(q, s, true);
    offset' := offset + ByteCount(c.geo, readblk);
    cmd.blnr := cmd.blnr + readblk;
    blocks' := blocks - readblk;
    readblk' := readblk;
    if blocks' != 0 {
      readblk' := NextSize(c.geo, s.blnr, blocks, blocks');
    }
  }

  /** What follows a complete chunk: the next chunk's seek, or the end. */
  method FinishChunk(c: Controller, cmd: FdcCommand, buffer: array<int>, blocks: nat, offset: nat, readblk: nat,
                     ghost q: Request, ghost start: View, ghost v: View, ghost s: State, ghost r: Retries)
    returns (phase: Phase, blocks': nat, offset': nat, readblk': nat, ghost s': State)
    requires Underway(q, start, v, s, r, AtRead) && q.answer(|v.log|) != NoResponse && q.geo == c.geo
    requires c.Seen().log == v.log + [ReadData] && c.Seen().errors == v.errors
    requires s.blnr == cmd.blnr && s.blocks == blocks && s.offset == offset
    requires readblk == ChunkSize(q.geo, s.blnr, s.blocks) <= blocks && Engine(q, AfterChunk(q, s, buffer[..]))
    modifies cmd`blnr
    ensures s' == State(s.run + [NextRead(q, s, true)], cmd.blnr, blocks', offset', buffer[..])
    ensures Reached(q, start, c.Seen(), s', r, phase) && phase != AtRead
    ensures !phase.Ended? ==> readblk' == ChunkSize(q.geo, s'.blnr, s'.blocks) && blocks' < blocks
  {
    s' := AfterChunk(q, s, buffer[..]);
    ChunkDone(q, start, v, s, r, c.Seen(), s'.buffer);
    blocks', offset', readblk' := Advance(c, cmd, blocks, offset, readblk, q, s, s'.buffer);
    phase := if blocks' == 0 then Ended(Success) else AtSeek;
  }

  /** From `retryrw`: a READ, and what follows from how it goes. */
  method ReadChunk(c: Controller, cmd: FdcCommand, buffer: array<int>, run: seq<Read>, blocks: nat, offset: nat,
                   readblk: nat, r: Retries, ghost q: Request, ghost start: View, ghost s: State)
    returns (phase: Phase, run': seq<Read>, blocks': nat, offset': nat, readblk': nat, r': Retries, ghost s': State)
    requires s == StateOf(run, cmd, blocks, offset, buffer) && q == RequestOf(c, cmd.drive, q.from, q.total, q.before)
    requires Underway(q, start, c.Seen(), s, r, AtRead) && readblk == ChunkSize(q.geo, s.blnr, s.blocks)
    requires OnTrack(c, cmd)
    modifies c`polls, c`log, c`cylinder, cmd`blnr, buffer
    ensures phase.AtRead? ==> OnTrack(c, cmd)
    ensures s' == StateOf(run', cmd, blocks', offset', buffer) && Reached(q, start, c.Seen(), s', r', phase)
    ensures !phase.Ended? ==> readblk' == ChunkSize(q.geo, s'.blnr, s'.blocks)
    ensures !phase.Ended? ==> 5 * r'.cal + r'.rw > 5 * r.cal + r.rw || (r' == r && blocks' < blocks)
  {
    ghost var v := c.Seen();
    run', blocks', offset', readblk', r', s' := run, blocks, offset, readblk, r, s;
    var issued := IssueRead(c, q, start, s, r);
    if !issued {
      phase := Ended(CommandFailed);
      return;
    }
    ghost var w := c.Seen();
    var read := Attempt(c, cmd, buffer, offset, readblk, q, s);
    run' := run + [read];
    if read.complete {
      phase, blocks', offset', readblk', s' :=
        FinishChunk(c, cmd, buffer, blocks, offset, readblk, q, start, v, s, r);
    } else {
      s' := AfterFailure(q, s, buffer[..]);
      ChunkLost(q, start, v, s, r, w, s'.buffer);
      r', phase := Recover(c, r, q, start, w, s');
    }
  }

  /** The first seek. */
  method FirstSeek(c: Controller, cmd: FdcCommand, ghost q: Request, ghost s: State) returns (phase: Phase)
    requires q.geo == c.geo && ValidShape(q.geo) && Bytes(q.geo, q.total) <= |s.buffer| && q.answer == c.answer
    requires s == State([], q.from, q.total, 0, q.before)
    modifies c`log, c`cylinder
    ensures Reached(q, old(c.Seen()), c.Seen(), s, Retries(0, 0), phase) && phase != AtSeek
    ensures phase.AtRead? ==> OnTrack(c, cmd)
  {
    ghost var start := c.Seen();
    Starts(q, start, s.buffer);
    var a := FdcSeek(c, cmd);
    assert c.Seen() == start.(log := start.log + [Seek]);
    phase := if a == Done then AtRead else Ended(if a == NoResponse then CommandFailed else FirstSeekBad);
  }

  /** From one label to the end. */
  method ReadOn(c: Controller, cmd: FdcCommand, buffer: array<int>, total: nat, first: Phase, ghost q: Request,
                ghost start: View)
    returns (outcome: Outcome, run: seq<Read>, ghost s: State)
    requires q == RequestOf(c, cmd.drive, cmd.blnr, total, q.before) && first != AtSeek
        && Bytes(c.geo, total) <= buffer.Length
    requires Reached(q, start, c.Seen(), StateOf([], cmd, total, 0, buffer), Retries(0, 0), first)
    requires first.AtRead? ==> OnTrack(c, cmd)
    modifies c`polls, c`log, c`cylinder, cmd`blnr, buffer
    ensures s.run == run && s.blnr == cmd.blnr && s.buffer == buffer[..]
    ensures ReadPromise(q, start, c.Seen(), s, outcome)
  {
    var phase, blocks, offset: nat, r := first, total, 0, Retries(0, 0);
    run := [];
    s := StateOf(run, cmd, blocks, offset, buffer);
    var readblk := 0;
    if phase.AtRead? {
      readblk := c.geo.sect - Rem(cmd.blnr, c.geo.sect);
      if readblk > blocks {
        readblk := blocks;
      }
    }
    while !phase.Ended?
      invariant s == StateOf(run, cmd, blocks, offset, buffer)
          && q == RequestOf(c, cmd.drive, q.from, q.total, q.before)
      invariant Reached(q, start, c.Seen(), s, r, phase) && (phase.AtRead? ==> OnTrack(c, cmd))
      invariant !phase.Ended? ==> readblk == ChunkSize(q.geo, s.blnr, s.blocks)
      decreases !phase.Ended?, 25 - (5 * r.cal + r.rw), blocks, phase.AtSeek?
    {
      if phase.AtSeek? {
        phase := SeekNext(c, cmd, q, start, s, r);
      } else {
        phase, run, blocks, offset, readblk, r, s :=
          ReadChunk(c, cmd, buffer, run, blocks, offset, readblk, r, q, start, s);
      }
    }
    outcome := phase.outcome;
  }

  /** The seeks, READs and retries of fdc_read_data, from label to label. */
  method ReadBlocks(c: Controller, cmd: FdcCommand, buffer: array<int>, total: nat)
    returns (outcome: Outcome, run: seq<Read>)
    requires ValidShape(c.geo) && Bytes(c.geo, total) <= buffer.Length
    modifies c`polls, c`log, c`cylinder, cmd`blnr, buffer
    ensures ReadPromise(RequestOf(c, cmd.drive, old(cmd.blnr), total, old(buffer[..])), old(c.Seen()), c.Seen(),
                        State(run, cmd.blnr, 0, 0, buffer[..]), outcome)
    ensures outcome == Success && cmd.drive < 4 ==> HoldsBlocks(buffer[..], c.disk, c.geo, old(cmd.blnr), total)
  {
    ghost var q, start := RequestOf(c, cmd.drive, cmd.blnr, total, buffer[..]), c.Seen();
    ghost var s := StateOf([], cmd, total, 0, buffer);
    var first := FirstSeek(c, cmd, q, s);
    assert StateOf([], cmd, total, 0, buffer) == s;
    outcome, run, s := ReadOn(c, cmd, buffer, total, first, q, start);
    PromiseOf(q, start, c.Seen(), s, outcome);
    PromiseFills(q, start, c.Seen(), s, outcome);
  }

  /** fdc_read_data. It returns true exactly when it ends with a READ and fewer than 25 errors, and
      switches interrupts back on exactly unless it ends with an unconfirmed seek behind the first. */
  method FdcReadData(c: Controller, cmd: FdcCommand, buffer: array<int>, total: nat)
    returns (ok: bool, outcome: Outcome, run: seq<Read>)
    requires ValidShape(c.geo) && Bytes(c.geo, total) <= buffer.Length
    modifies c, cmd`blnr, buffer
    ensures ReadPromise(RequestOf(c, cmd.drive, old(cmd.blnr), total, old(buffer[..])), old(c.Seen()), c.Seen(),
                        State(run, cmd.blnr, 0, 0, buffer[..]), outcome)
    ensures ok && cmd.drive < 4 ==> HoldsBlocks(buffer[..], c.disk, c.geo, old(cmd.blnr), total)
    ensures ok <==> outcome == Success
    ensures ok <==> c.log[|c.log| - 1] == ReadData && c.answer(|c.log| - 1) != NoResponse
                    && c.Seen().errors - old(c.Seen().errors) < 25
    ensures !c.motorOn
    ensures c.irqOn <==> old(c.irqOn) && !LaterSeekUnconfirmed(c.log, c.answer, |old(c.log)|)
  {
    ghost var q, start := RequestOf(c, cmd.drive, cmd.blnr, total, buffer[..]), c.Seen();
    var flags := c.irqOn;
    c.irqOn, c.motorOn := false, true;
    outcome, run := ReadBlocks(c, cmd, buffer, total);
    EndIff(q, start, c.Seen(), State(run, cmd.blnr, 0, 0, buffer[..]), outcome);
    c.motorOn := false;
    if outcome != LaterSeekBad && flags {
      c.irqOn := true;
    }
    ok := outcome == Success;
  }

  // ---------------------------------------------------------------- a call that loses the interrupts

  /** On the 1.44 MB disk, every byte delivered and every command completed, but only the first seek
      confirmed: reading two sides fails and leaves the interrupts off. */
  method InterruptsLost(disk: Disk) returns (ok: bool, c: Controller)
    ensures !ok && !c.irqOn
    ensures c.geo == H1440 && forall n: nat :: c.pollOk(n) && c.answer(n) == if n == 0 then Done else BadSeek
  {
    H1440IsValid();
    c := new Controller(H1440, disk, 0x1B, n => true, n => if n == 0 then Done else BadSeek, true);
    var cmd := new FdcCommand;
    cmd.blnr, cmd.drive := 0, 0;
    var buffer := new int[36 * 512];
    BytesIsProduct(H1440, 36);
    var outcome, run;
    ghost var q := RequestOf(c, 0, 0, 36, buffer[..]);
    ok, outcome, run := FdcReadData(c, cmd, buffer, 36);
    NoErrors(c.pollOk, c.polls);
    if ok {
      SecondSeek(q, c.Seen(), State(run, cmd.blnr, 0, 0, buffer[..]));
    }
  }
}
