/** What the floppy read engine does between its labels: chunks of one track side, transfer errors,
    retries and recalibrations, for every sequence of answers the controller may give. */
module FloppyEngine {
  import opened Division
  import opened FloppyGeometry

  const FDC_RW_RETRIES: nat := 3
  const FDC_CAL_RETRIES: nat := 3

  /** The commands the engine issues. */
  datatype CommandKind = Seek | Recalibrate | ReadData

  /** How a command goes: it completes, it gets no response, or it completes with a status that does
      not confirm a seek. */
  datatype Answer = Done | NoResponse | BadSeek

  /** How fdc_read_data ends. */
  datatype Outcome = Success | TooManyErrors | CommandFailed | FirstSeekBad | LaterSeekBad

  /** A READ of `count` blocks from `start` on, the track the heads stood on, and whether all its bytes
      came. */
  datatype Read = Read(start: nat, count: nat, cylinder: nat, cmd: ReadCommand, complete: bool)

  // ---------------------------------------------------------------- chunks

  /** The next chunk: the rest of the track side, but no more than is asked for. */
  function ChunkSize(g: Geometry, blnr: nat, blocks: nat): nat
    requires g.sect > 0
  {
    var readblk := g.sect - Rem(blnr, g.sect);
    if readblk > blocks then blocks else readblk
  }

  /** When blocks remain behind a chunk, the next one starts at the front of a side. */
  lemma NextChunk(g: Geometry, blnr: nat, blocks: nat)
    requires g.sect > 0 && ChunkSize(g, blnr, blocks) < blocks
    ensures var n := ChunkSize(g, blnr, blocks);
            ChunkSize(g, blnr + n, blocks - n) == if g.sect > blocks - n then blocks - n else g.sect
  {
    Split(blnr, g.sect);
    PartsOf(blnr + ChunkSize(g, blnr, blocks), g.sect, Quot(blnr, g.sect) + 1, 0);
  }

  /** The READ commands of a run from block `from`, up to a point where the next one is to start
      at `next`: each follows the one before, and one that failed is repeated from its start. */
  predicate Chained(trace: seq<Read>, from: nat, next: nat) {
    if trace == [] then next == from
    else
      var r := trace[|trace| - 1];
      && Chained(trace[..|trace| - 1], from, r.start)
      && next == if r.complete then r.start + r.count else r.start
  }

  /** The blocks of the complete READs, in order. */
  function BlocksRead(trace: seq<Read>): seq<nat> {
    if trace == [] then []
    else
      var r := trace[|trace| - 1];
      BlocksRead(trace[..|trace| - 1]) + if r.complete then seq(r.count, i requires 0 <= i => r.start + i) else []
  }

  /** MAIN RESULT on chunking: the complete READs of a chained run tile the blocks from..next,
      each block once and in order. */
  lemma {:induction false} ReadsTile(trace: seq<Read>, from: nat, next: nat)
    requires Chained(trace, from, next)
    ensures from <= next && BlocksRead(trace) == seq(next - from, i requires 0 <= i => from + i)
  {
    if trace != [] {
      var r := trace[|trace| - 1];
      ReadsTile(trace[..|trace| - 1], from, r.start);
    }
  }

  /** The number of complete READs. */
  function Completed(trace: seq<Read>): nat {
    if trace == [] then 0
    else Completed(trace[..|trace| - 1]) + if trace[|trace| - 1].complete then 1 else 0
  }

  /** READs that stay on their side need one another to get further than a side. */
  lemma {:induction false} CompletedCovers(g: Geometry, trace: seq<Read>, from: nat, next: nat)
    requires g.sect > 0 && Chained(trace, from, next) && forall r :: r in trace ==> r.count <= g.sect
    ensures next - from <= Completed(trace) * g.sect
  {
    if trace != [] {
      var r := trace[|trace| - 1];
      CompletedCovers(g, trace[..|trace| - 1], from, r.start);
      Distribute(Completed(trace[..|trace| - 1]), 1, g.sect);
    }
  }

  // ---------------------------------------------------------------- the controller

  /** Number of transfer errors among the first n polls. */
  function Errors(pollOk: nat -> bool, n: nat): nat {
    if n == 0 then 0 else Errors(pollOk, n - 1) + if pollOk(n - 1) then 0 else 1
  }

  /** Number of commands of a kind. */
  function Count(log: seq<CommandKind>, k: CommandKind): nat {
    if log == [] then 0 else Count(log[..|log| - 1], k) + if log[|log| - 1] == k then 1 else 0
  }

  lemma CountMore(log: seq<CommandKind>, last: CommandKind, k: CommandKind)
    ensures Count(log + [last], k) == Count(log, k) + if last == k then 1 else 0
  {
    assert (log + [last])[..|log|] == log;
  }

  /** What has happened at the controller: transfer errors, commands, and whether the last poll was
      an error. */
  datatype View = View(errors: nat, log: seq<CommandKind>, pollFailed: bool)

  // ---------------------------------------------------------------- the run

  /** What one call has to do, with which drive, and what the buffer holds before it. */
  datatype Request = Request(geo: Geometry, disk: Disk, gap: nat, answer: nat -> Answer,
                             drive: nat, from: nat, total: nat, before: seq<int>)

  /** How far it is: the READs so far, pCMD->blnr, the blocks still to be read, the place in the
      buffer, and the buffer. */
  datatype State = State(run: seq<Read>, blnr: nat, blocks: nat, offset: nat, buffer: seq<int>)

  /** The two retry counters. */
  datatype Retries = Retries(rw: nat, cal: nat)

  /** A READ command addresses its start block, is issued with the heads on that block's track, and does not
      leave that side of it. */
  predicate WellAddressed(q: Request, r: Read)
    requires ValidShape(q.geo)
  {
    && r.cmd == ReadAt(q.geo, q.drive, q.gap, r.start) && r.cylinder == r.cmd.track
    && Rem(r.start, q.geo.sect) + r.count <= q.geo.sect
  }

  /** The buffer holds the first n requested bytes, when the drive number leaves the head-select bit free. */
  ghost predicate Filled(q: Request, buffer: seq<int>, n: nat)
    requires ValidShape(q.geo)
  {
    && n <= |buffer|
    && (HeadBitFree(q.drive) ==>
          forall k: nat :: k < n ==> buffer[k] == FlatByte(q.disk, q.geo, Bytes(q.geo, q.from) + k))
  }

  /** The buffer behind the requested bytes is as it was. */
  ghost predicate RestKept(q: Request, buffer: seq<int>) {
    |buffer| == |q.before| && forall k: nat :: Bytes(q.geo, q.total) <= k < |buffer| ==> buffer[k] == q.before[k]
  }

  /** Everything kept between READ commands. */
  ghost predicate Engine(q: Request, s: State) {
    && ValidShape(q.geo)
    && q.from <= s.blnr && s.blnr + s.blocks == q.from + q.total
    && Chained(s.run, q.from, s.blnr) && (forall r :: r in s.run ==> WellAddressed(q, r))
    && s.offset == Bytes(q.geo, s.blnr - q.from)
    && Bytes(q.geo, q.total) <= |s.buffer|
    && Filled(q, s.buffer, s.offset)
    && RestKept(q, s.buffer)
  }

  /** The READ that comes next. */
  function NextRead(q: Request, s: State, complete: bool): Read
    requires ValidShape(q.geo)
  {
    var cmd := ReadAt(q.geo, q.drive, q.gap, s.blnr);
    Read(s.blnr, ChunkSize(q.geo, s.blnr, s.blocks), cmd.track, cmd, complete)
  }

  lemma ChunkStaysOnSide(q: Request, s: State, complete: bool)
    requires ValidShape(q.geo)
    ensures WellAddressed(q, NextRead(q, s, complete)) && NextRead(q, s, complete).count <= s.blocks
    ensures s.blocks > 0 ==> NextRead(q, s, complete).count > 0
  {
  }

  /** The chunk fits the buffer. */
  lemma ChunkFits(q: Request, s: State)
    requires Engine(q, s)
    ensures s.offset + Bytes(q.geo, ChunkSize(q.geo, s.blnr, s.blocks)) <= Bytes(q.geo, q.total) <= |s.buffer|
  {
    var n := ChunkSize(q.geo, s.blnr, s.blocks);
    BytesAdd(q.geo, s.blnr - q.from, n);
    BytesAdd(q.geo, s.blnr - q.from + n, s.blocks - n);
  }

  lemma ChainedMore(trace: seq<Read>, from: nat, r: Read)
    requires Chained(trace, from, r.start)
    ensures Chained(trace + [r], from, if r.complete then r.start + r.count else r.start)
    ensures Completed(trace + [r]) == Completed(trace) + if r.complete then 1 else 0
  {
    assert (trace + [r])[..|trace|] == trace;
  }

  /** The state after a failed READ. */
  function AfterFailure(q: Request, s: State, buffer: seq<int>): State
    requires ValidShape(q.geo)
  {
    s.(run := s.run + [NextRead(q, s, false)], buffer := buffer)
  }

  /** A failed attempt leaves the engine where it was; the chunk is read again from its start. */
  lemma AttemptFailed(q: Request, s: State, buffer: seq<int>)
    requires Engine(q, s) && RestKept(q, buffer) && forall k :: 0 <= k < s.offset ==> buffer[k] == s.buffer[k]
    ensures Engine(q, AfterFailure(q, s, buffer))
  {
    ChunkStaysOnSide(q, s, false);
    ChainedMore(s.run, q.from, NextRead(q, s, false));
  }

  /** The state after a complete READ. */
  function AfterChunk(q: Request, s: State, buffer: seq<int>): State
    requires ValidShape(q.geo) && ChunkSize(q.geo, s.blnr, s.blocks) <= s.blocks
  {
    var n := ChunkSize(q.geo, s.blnr, s.blocks);
    State(s.run + [NextRead(q, s, true)], s.blnr + n, s.blocks - n, s.offset + Bytes(q.geo, n), buffer)
  }

  lemma ChunkByte(q: Request, s: State, count: nat, k: nat)
    requires ValidShape(q.geo) && q.from <= s.blnr && s.offset == Bytes(q.geo, s.blnr - q.from)
    requires Rem(s.blnr, q.geo.sect) + count <= q.geo.sect && s.offset <= k < s.offset + Bytes(q.geo, count)
    requires HeadBitFree(q.drive)
    ensures var cmd := ReadAt(q.geo, q.drive, q.gap, s.blnr);
            Delivered(q.disk, cmd.track, cmd, k - s.offset) == FlatByte(q.disk, q.geo, Bytes(q.geo, q.from) + k)
  {
    BytesAdd(q.geo, q.from, s.blnr - q.from);
    ReadDeliversBlocks(q.disk, q.geo, q.drive, q.gap, s.blnr, count, k - s.offset);
  }

  /** The bytes a complete READ puts into the buffer. */
  ghost predicate ChunkDelivered(q: Request, s: State, buffer: seq<int>)
    requires ValidShape(q.geo)
  {
    var r := NextRead(q, s, true);
    && RestKept(q, buffer) && |buffer| == |s.buffer| && s.offset + Bytes(q.geo, r.count) <= |buffer|
    && (forall k :: 0 <= k < s.offset ==> buffer[k] == s.buffer[k])
    && forall k :: s.offset <= k < s.offset + Bytes(q.geo, r.count)
        ==> buffer[k] == Delivered(q.disk, r.cylinder, r.cmd, k - s.offset)
  }

  /** They extend the filled part of the buffer. */
  lemma FilledMore(q: Request, s: State, buffer: seq<int>)
    requires Engine(q, s) && ChunkDelivered(q, s, buffer)
    ensures Filled(q, buffer, s.offset + Bytes(q.geo, ChunkSize(q.geo, s.blnr, s.blocks)))
  {
    var n := ChunkSize(q.geo, s.blnr, s.blocks);
    forall k: nat | k < s.offset + Bytes(q.geo, n) && HeadBitFree(q.drive)
      ensures buffer[k] == FlatByte(q.disk, q.geo, Bytes(q.geo, q.from) + k)
    {
      if k >= s.offset {
        ChunkByte(q, s, n, k);
      }
    }
  }

  /** A complete attempt advances block number, blocks and offset together. */
  lemma AttemptComplete(q: Request, s: State, buffer: seq<int>)
    requires Engine(q, s) && ChunkDelivered(q, s, buffer)
    ensures ChunkSize(q.geo, s.blnr, s.blocks) <= s.blocks && Engine(q, AfterChunk(q, s, buffer))
  {
    ChunkStaysOnSide(q, s, true);
    ChainedMore(s.run, q.from, NextRead(q, s, true));
    FilledMore(q, s, buffer);
    BytesAdd(q.geo, s.blnr - q.from, ChunkSize(q.geo, s.blnr, s.blocks));
  }

  // ---------------------------------------------------------------- what the commands say

  /** Answers after which the engine goes on: a seek has to be confirmed, other commands only answered. */
  predicate AnsweredWell(kind: CommandKind, a: Answer) {
    if kind == Seek then a == Done else a != NoResponse
  }

  /** The call has issued commands, and all but perhaps the last were answered well. */
  ghost predicate Issued(q: Request, start: View, v: View) {
    && |start.log| < |v.log|
    && forall k: nat :: |start.log| <= k < |v.log| - 1 ==> AnsweredWell(v.log[k], q.answer(k))
  }

  predicate LastWell(q: Request, v: View)
    requires v.log != []
  {
    AnsweredWell(v.log[|v.log| - 1], q.answer(|v.log| - 1))
  }

  /** How the last command and its answer account for the end of the call. */
  predicate EndsWith(q: Request, start: View, v: View, outcome: Outcome)
    requires v.log != []
  {
    var kind, a := v.log[|v.log| - 1], q.answer(|v.log| - 1);
    match outcome
    case Success => kind == ReadData && a != NoResponse
    case TooManyErrors => kind == ReadData && a != NoResponse
    case CommandFailed => a == NoResponse
    case FirstSeekBad => kind == Seek && a == BadSeek && |v.log| == |start.log| + 1
    case LaterSeekBad => kind == Seek && a == BadSeek && |v.log| > |start.log| + 1
  }

  function Since(start: View, v: View, k: CommandKind): int {
    Count(v.log, k) - Count(start.log, k)
  }

  /** The promise about errors and commands. */
  ghost predicate Accounted(q: Request, start: View, v: View, completed: nat, outcome: Outcome) {
    && Issued(q, start, v) && EndsWith(q, start, v, outcome)
    && completed <= Since(start, v, Seek)
    && (outcome == TooManyErrors <==> v.errors - start.errors >= 25)
    && (outcome == TooManyErrors ==>
          v.errors - start.errors == 25 && v.pollFailed && Since(start, v, Recalibrate) == 4)
  }

  /** The promise about blocks and bytes. */
  ghost predicate Delivers(q: Request, s: State, outcome: Outcome) {
    && ValidShape(q.geo) && q.from <= s.blnr <= q.from + q.total
    && Chained(s.run, q.from, s.blnr) && (forall r :: r in s.run ==> WellAddressed(q, r))
    && RestKept(q, s.buffer)
    && (outcome == Success ==> s.blnr == q.from + q.total && Filled(q, s.buffer, Bytes(q.geo, q.total)))
  }

  /** What fdc_read_data promises, for every sequence of poll and command answers. */
  ghost predicate ReadPromise(q: Request, start: View, v: View, s: State, outcome: Outcome) {
    Delivers(q, s, outcome) && Accounted(q, start, v, Completed(s.run), outcome)
  }

  /** Where the engine stands: before a READ (`retryrw`), before a seek (`retrycal`), or at its end. */
  datatype Phase = AtRead | AtSeek | Ended(outcome: Outcome)

  /** Errors and commands between the labels: every recalibration stands for five errors, and before
      a READ one more seek has been made than READs completed. */
  ghost predicate Commanded(q: Request, start: View, v: View, completed: nat, r: Retries, phase: Phase) {
    && Issued(q, start, v) && LastWell(q, v)
    && completed + (if phase.AtRead? then 1 else 0) <= Since(start, v, Seek)
    && v.errors - start.errors == 5 * r.cal + r.rw
    && Since(start, v, Recalibrate) == r.cal
    && r.rw <= FDC_RW_RETRIES + 1 && r.cal <= FDC_CAL_RETRIES + 1
  }

  /** The state between the labels. */
  ghost predicate Underway(q: Request, start: View, v: View, s: State, r: Retries, phase: Phase) {
    Engine(q, s) && Commanded(q, start, v, Completed(s.run), r, phase)
  }

  ghost predicate Reached(q: Request, start: View, v: View, s: State, r: Retries, phase: Phase) {
    if phase.Ended? then ReadPromise(q, start, v, s, phase.outcome) else Underway(q, start, v, s, r, phase)
  }

  /** What the engine has delivered at any time. */
  lemma EngineDelivers(q: Request, s: State, outcome: Outcome)
    requires Engine(q, s) && (outcome == Success ==> s.blocks == 0)
    ensures Delivers(q, s, outcome)
  {
    if s.blocks == 0 {
      assert s.blnr - q.from == q.total;
    }
  }

  /** One more command, answered well. */
  lemma IssuedMore(q: Request, start: View, v: View, kind: CommandKind)
    requires Issued(q, start, v) && LastWell(q, v)
    ensures Issued(q, start, v.(log := v.log + [kind]))
    ensures forall k: CommandKind ::
              Since(start, v.(log := v.log + [kind]), k) == Since(start, v, k) + if kind == k then 1 else 0
  {
    forall k: CommandKind
      ensures Since(start, v.(log := v.log + [kind]), k) == Since(start, v, k) + if kind == k then 1 else 0
    {
      CountMore(v.log, kind, k);
    }
  }

  // ---------------------------------------------------------------- the steps between labels

  /** A command whose answer ends the call. */
  lemma CommandEnds(q: Request, start: View, v: View, completed: nat, r: Retries, phase: Phase, kind: CommandKind,
                    outcome: Outcome)
    requires Commanded(q, start, v, completed, r, phase) && outcome != TooManyErrors
    requires EndsWith(q, start, v.(log := v.log + [kind]), outcome)
    ensures Accounted(q, start, v.(log := v.log + [kind]), completed, outcome)
  {
    IssuedMore(q, start, v, kind);
  }

  /** A seek that is confirmed. */
  lemma SeekConfirmed(q: Request, start: View, v: View, completed: nat, r: Retries)
    requires Commanded(q, start, v, completed, r, AtSeek) && q.answer(|v.log|) == Done
    ensures Commanded(q, start, v.(log := v.log + [Seek]), completed, r, AtRead)
  {
    IssuedMore(q, start, v, Seek);
  }

  /** A seek, however it is answered. */
  lemma SeekStep(q: Request, start: View, v: View, s: State, r: Retries)
    requires Underway(q, start, v, s, r, AtSeek)
    ensures var w, a := v.(log := v.log + [Seek]), q.answer(|v.log|);
            if a == Done then Underway(q, start, w, s, r, AtRead)
            else ReadPromise(q, start, w, s, if a == NoResponse then CommandFailed else LaterSeekBad)
  {
    var a := q.answer(|v.log|);
    if a == Done {
      SeekConfirmed(q, start, v, Completed(s.run), r);
    } else {
      var outcome := if a == NoResponse then CommandFailed else LaterSeekBad;
      CommandEnds(q, start, v, Completed(s.run), r, AtSeek, Seek, outcome);
      EngineDelivers(q, s, outcome);
    }
  }

  /** A READ that gets no response. */
  lemma ReadUnanswered(q: Request, start: View, v: View, s: State, r: Retries)
    requires Underway(q, start, v, s, r, AtRead) && q.answer(|v.log|) == NoResponse
    ensures ReadPromise(q, start, v.(log := v.log + [ReadData]), s, CommandFailed)
  {
    CommandEnds(q, start, v, Completed(s.run), r, AtRead, ReadData, CommandFailed);
    EngineDelivers(q, s, CommandFailed);
  }

  /** A READ that is answered, before its bytes are looked at. */
  lemma ReadIssued(q: Request, start: View, v: View, completed: nat, r: Retries)
    requires Commanded(q, start, v, completed, r, AtRead) && q.answer(|v.log|) != NoResponse
    ensures Commanded(q, start, v.(log := v.log + [ReadData]), completed + 1, r, AtSeek)
  {
    IssuedMore(q, start, v, ReadData);
  }

  /** The end of the last chunk. */
  lemma ReadEnds(q: Request, start: View, v: View, completed: nat, r: Retries)
    requires Commanded(q, start, v, completed, r, AtSeek) && v.log[|v.log| - 1] == ReadData
    ensures Accounted(q, start, v, completed, Success)
  {
  }

  /** Later polls that deliver change nothing. */
  lemma SameCommands(q: Request, start: View, v: View, w: View, completed: nat, r: Retries, phase: Phase)
    requires Commanded(q, start, v, completed, r, phase) && w.log == v.log && w.errors == v.errors
    ensures Commanded(q, start, w, completed, r, phase)
  {
  }

  /** A complete READ leads to a seek, or to the end when all blocks are read. */
  lemma ChunkDone(q: Request, start: View, v: View, s: State, r: Retries, w: View, buffer: seq<int>)
    requires Underway(q, start, v, s, r, AtRead) && q.answer(|v.log|) != NoResponse
    requires ChunkSize(q.geo, s.blnr, s.blocks) <= s.blocks && Engine(q, AfterChunk(q, s, buffer))
    requires w.log == v.log + [ReadData] && w.errors == v.errors
    ensures var t := AfterChunk(q, s, buffer);
            if t.blocks == 0 then ReadPromise(q, start, w, t, Success) else Underway(q, start, w, t, r, AtSeek)
  {
    var t := AfterChunk(q, s, buffer);
    ChainedMore(s.run, q.from, NextRead(q, s, true));
    ReadIssued(q, start, v, Completed(s.run), r);
    SameCommands(q, start, v.(log := v.log + [ReadData]), w, Completed(t.run), r, AtSeek);
    if t.blocks == 0 {
      ReadEnds(q, start, w, Completed(t.run), r);
      EngineDelivers(q, t, Success);
    }
  }

  /** A failed READ leaves everything as before the READ, with the error still to be counted. */
  lemma ChunkLost(q: Request, start: View, v: View, s: State, r: Retries, w: View, buffer: seq<int>)
    requires Underway(q, start, v, s, r, AtRead) && q.answer(|v.log|) != NoResponse
    requires Engine(q, AfterFailure(q, s, buffer)) && w == v.(log := v.log + [ReadData])
    ensures Engine(q, AfterFailure(q, s, buffer))
    ensures Commanded(q, start, w, Completed(AfterFailure(q, s, buffer).run) + 1, r, AtSeek)
  {
    ChainedMore(s.run, q.from, NextRead(q, s, false));
    ReadIssued(q, start, v, Completed(s.run), r);
  }

  /** A transfer error: a plain retry as long as there are any left. */
  lemma PlainRetry(q: Request, start: View, v: View, completed: nat, r: Retries)
    requires Commanded(q, start, v, completed + 1, r, AtSeek) && r.rw <= FDC_RW_RETRIES
    ensures Commanded(q, start, v.(errors := v.errors + 1, pollFailed := true), completed, r.(rw := r.rw + 1), AtRead)
  {
  }

  /** The error after the last recalibration and its retries. */
  lemma LastError(q: Request, start: View, v: View, completed: nat, r: Retries)
    requires Commanded(q, start, v, completed, r, AtSeek) && v.log[|v.log| - 1] == ReadData
    requires r.rw > FDC_RW_RETRIES && r.cal > FDC_CAL_RETRIES
    ensures Accounted(q, start, v.(errors := v.errors + 1, pollFailed := true), completed, TooManyErrors)
  {
  }

  /** The error that makes the engine recalibrate. */
  lemma Recalibrates(q: Request, start: View, v: View, completed: nat, r: Retries)
    requires Commanded(q, start, v, completed, r, AtSeek) && r.rw > FDC_RW_RETRIES && r.cal <= FDC_CAL_RETRIES
    ensures var w := v.(errors := v.errors + 1, pollFailed := true, log := v.log + [Recalibrate]);
            if q.answer(|v.log|) == NoResponse then Accounted(q, start, w, completed, CommandFailed)
            else Commanded(q, start, w, completed, Retries(0, r.cal + 1), AtSeek)
  {
    IssuedMore(q, start, v.(errors := v.errors + 1, pollFailed := true), Recalibrate);
  }

  /** What the engine has when it is about to read for the first time. */
  lemma Starts(q: Request, start: View, buffer: seq<int>)
    requires ValidShape(q.geo) && Bytes(q.geo, q.total) <= |buffer| && q.before == buffer
    ensures var v, s := start.(log := start.log + [Seek]), State([], q.from, q.total, 0, buffer);
            var a := q.answer(|start.log|);
            if a == Done then Underway(q, start, v, s, Retries(0, 0), AtRead)
            else ReadPromise(q, start, v, s, if a == NoResponse then CommandFailed else FirstSeekBad)
  {
    forall k: CommandKind ensures Count(start.log + [Seek], k) == Count(start.log, k) + if k == Seek then 1 else 0 {
      CountMore(start.log, Seek, k);
    }
  }

  /** The promise does not speak of the loop's own variables. */
  lemma PromiseOf(q: Request, start: View, v: View, s: State, outcome: Outcome)
    requires ReadPromise(q, start, v, s, outcome)
    ensures ReadPromise(q, start, v, State(s.run, s.blnr, 0, 0, s.buffer), outcome)
  {
  }

  /** The bytes of n blocks from block `from` on, in order, at the front of the buffer. */
  ghost predicate HoldsBlocks(buffer: seq<int>, d: Disk, g: Geometry, from: nat, n: nat) {
    && ValidShape(g) && Bytes(g, n) <= |buffer|
    && forall k: nat :: k < Bytes(g, n) ==> buffer[k] == FlatByte(d, g, Bytes(g, from) + k)
  }

  /** With one of the four drive numbers a successful call has read the blocks. */
  lemma PromiseFills(q: Request, start: View, v: View, s: State, outcome: Outcome)
    requires ReadPromise(q, start, v, s, outcome)
    ensures outcome == Success && q.drive < 4 ==> HoldsBlocks(s.buffer, q.disk, q.geo, q.from, q.total)
  {
    assert q.drive < 4 ==> HeadBitFree(q.drive);
  }

  // ---------------------------------------------------------------- how a call ends

  /** The call ends with a seek, not its first command, that the drive did not confirm. */
  predicate LaterSeekUnconfirmed(log: seq<CommandKind>, answer: nat -> Answer, commands0: nat) {
    commands0 + 1 < |log| && log[|log| - 1] == Seek && answer(|log| - 1) == BadSeek
  }

  /** Each end of a call is told from the others by what the controller was asked and answered. */
  lemma EndIff(q: Request, start: View, v: View, s: State, outcome: Outcome)
    requires ReadPromise(q, start, v, s, outcome)
    ensures v.log != []
    ensures outcome == Success
            <==> v.log[|v.log| - 1] == ReadData && q.answer(|v.log| - 1) != NoResponse && v.errors - start.errors < 25
    ensures outcome == CommandFailed <==> q.answer(|v.log| - 1) == NoResponse
    ensures outcome == LaterSeekBad <==> LaterSeekUnconfirmed(v.log, q.answer, |start.log|)
  {
  }

  lemma {:induction false} NoErrors(pollOk: nat -> bool, n: nat)
    requires forall k: nat :: pollOk(k)
    ensures Errors(pollOk, n) == 0
  {
    if n > 0 {
      NoErrors(pollOk, n - 1);
    }
  }

  /** When no command but the first is a seek, there is at most one. */
  lemma {:induction false} OneSeek(log: seq<CommandKind>)
    requires forall k: nat :: 0 < k < |log| ==> log[k] != Seek
    ensures Count(log, Seek) <= 1
  {
    if |log| > 1 {
      OneSeek(log[..|log| - 1]);
    } else if |log| == 1 {
      assert log[..0] == [];
    }
  }

  /** A call that succeeds on more than one side needs a seek behind the first one. */
  lemma SecondSeek(q: Request, v: View, s: State)
    requires ReadPromise(q, View(0, [], false), v, s, Success) && q.total > q.geo.sect
    ensures exists k: nat :: 0 < k < |v.log| && v.log[k] == Seek && q.answer(k) == Done
  {
    CompletedCovers(q.geo, s.run, q.from, s.blnr);
    assert Completed(s.run) >= 2 by {
      if Completed(s.run) <= 1 {
        MulMonotone(Completed(s.run), 1, q.geo.sect);
      }
    }
    if forall k: nat :: 0 < k < |v.log| ==> v.log[k] != Seek {
      OneSeek(v.log);
    }
  }
}
