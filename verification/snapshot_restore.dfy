/**
 The client side of `snapshot restore`: choosing the byte source, and the
 sequence of transport calls that uploads it as one Open event, the source's
 chunks, and a final half-close that waits for the server's reply.
 */
module SnapshotRestore {
  import opened Wrappers
  import opened Framing

  /** A byte source the command can read from. */
  datatype Handle = Stdin | File(path: string)

  /** The reader to take bytes from, and the closer to release on exit (only a file
      the command opened itself has one). */
  datatype Source = Source(reader: Handle, closer: Option<Handle>)

  datatype InitError =
    | OpenFailed(path: string, cause: string)   // os.Open(args[0]) failed
    | StdinIsTerminal                           // implicit stdin refused

  /** True when the arguments ask for standard input, explicitly or implicitly. */
  predicate WantsStdin(args: seq<string>)
  {
    |args| == 0 || args[0] == "-"
  }

  /** Source selection. `stdinIsTerminal` is the terminal check's answer on stdin and
      `openErr` the outcome of opening args[0] (None when it opened). Only args[0]
      is ever consulted. */
  function InitReader(args: seq<string>, stdinIsTerminal: bool, openErr: Option<string>)
    : (r: Result<Source, InitError>)
    // "-" forces stdin, whatever the terminal check says; stdin is never closed
    ensures |args| >= 1 && args[0] == "-" ==> r == Success(Source(Stdin, None))
    // any other argument is opened and serves as both reader and closer
    ensures |args| >= 1 && args[0] != "-" ==>
      r == (if openErr.None? then Success(Source(File(args[0]), Some(File(args[0]))))
            else Failure(OpenFailed(args[0], openErr.value)))
    // no argument: stdin, unless it is a terminal
    ensures |args| == 0 ==>
      r == (if stdinIsTerminal then Failure(StdinIsTerminal) else Success(Source(Stdin, None)))
    // a closer exists exactly for an opened file, and it is that file
    ensures r.Success? ==> (r.value.reader == Stdin <==> WantsStdin(args))
    ensures r.Success? ==> (r.value.closer.Some? <==> r.value.reader.File?)
    ensures r.Success? && r.value.closer.Some? ==> r.value.closer.value == r.value.reader
    ensures r.Failure? <==>
      (|args| == 0 && stdinIsTerminal) || (!WantsStdin(args) && openErr.Some?)
  {
    if |args| >= 1 then
      if args[0] == "-" then Success(Source(Stdin, None))
      else if openErr.Some? then Failure(OpenFailed(args[0], openErr.value))
      else Success(Source(File(args[0]), Some(File(args[0]))))
    else if stdinIsTerminal then Failure(StdinIsTerminal)
    else Success(Source(Stdin, None))
  }

  /** Only the first argument influences the selection. */
  lemma OnlyFirstArgConsulted(a: seq<string>, b: seq<string>, term: bool, openErr: Option<string>)
    requires |a| >= 1 && |b| >= 1 && a[0] == b[0]
    ensures InitReader(a, term, openErr) == InitReader(b, term, openErr)
  {
  }

  /** A transport call the command makes. */
  datatype Call =
    | RestoreSnapshot          // open the client stream
    | SendOpen                 // the Open event
    | SendChunk(data: seq<byte>)
    | CloseAndRecv             // half-close, then wait for the server's reply

  /** Everything the command cannot see. `callOk(i)` is the outcome of the i-th
      transport call it makes, counting from 0. */
  datatype World = World(
    initOk: bool,
    stdinIsTerminal: bool,
    openErr: Option<string>,
    stdinBytes: seq<byte>,
    fileBytes: seq<byte>,
    callOk: nat -> bool)

  /** The bytes a handle yields until end of input. */
  function Contents(w: World, h: Handle): seq<byte>
  {
    match h
    case Stdin => w.stdinBytes
    case File(_) => w.fileBytes
  }

  /** One Chunk send per frame: position i sends frame i. */
  function ChunkCalls(frames: seq<seq<byte>>): seq<Call>
  {
    seq(|frames|, i requires 0 <= i < |frames| => SendChunk(frames[i]))
  }

  /** The calls of a run in which every call succeeds, for source bytes `src`. */
  function Plan(src: seq<byte>): seq<Call>
  {
    [RestoreSnapshot, SendOpen] + ChunkCalls(Frames(src)) + [CloseAndRecv]
  }

  /** The payloads of the chunk calls in `calls`, in order; other calls carry none. */
  function Payloads(calls: seq<Call>): seq<seq<byte>>
  {
    if |calls| == 0 then []
    else (if calls[0].SendChunk? then [calls[0].data] else []) + Payloads(calls[1..])
  }

  lemma {:induction false} PayloadsAppend(a: seq<Call>, b: seq<Call>)
    ensures Payloads(a + b) == Payloads(a) + Payloads(b)
    decreases |a|
  {
    if |a| == 0 {
      assert a + b == b;
    } else {
      assert (a + b)[1..] == a[1..] + b;
      PayloadsAppend(a[1..], b);
    }
  }

  lemma {:induction false} PayloadsOfChunkCalls(frames: seq<seq<byte>>)
    ensures Payloads(ChunkCalls(frames)) == frames
    decreases |frames|
  {
    if |frames| > 0 {
      assert ChunkCalls(frames)[1..] == ChunkCalls(frames[1..]);
      PayloadsOfChunkCalls(frames[1..]);
      assert frames == [frames[0]] + frames[1..];
    }
  }

  /** The chunk payloads of a run, in send order, are exactly the source's frames. */
  lemma PlanPayloads(src: seq<byte>)
    ensures Payloads(Plan(src)) == Frames(src)
  {
    var frames := Frames(src);
    PayloadsAppend([RestoreSnapshot, SendOpen] + ChunkCalls(frames), [CloseAndRecv]);
    PayloadsAppend([RestoreSnapshot, SendOpen], ChunkCalls(frames));
    PayloadsOfChunkCalls(frames);
    assert Payloads([RestoreSnapshot, SendOpen]) == [] by {
      assert [RestoreSnapshot, SendOpen][1..] == [SendOpen];
      assert [SendOpen][1..] == [];
    }
    assert Payloads([CloseAndRecv]) == [] by {
      assert [CloseAndRecv][1..] == [];
    }
  }

  /** Concatenating every chunk payload in send order reproduces the source exactly,
      and the chunks are sized as the read loop sizes them. */
  lemma PlanReassembles(src: seq<byte>)
    ensures Flatten(Payloads(Plan(src))) == src
    ensures WellFramed(Payloads(Plan(src)))
    ensures |Payloads(Plan(src))| == FrameCount(|src|)
    ensures |src| == 0 <==> Payloads(Plan(src)) == []
  {
    PlanPayloads(src);
    FramesSound(src);
  }

  /** A run cut short after any number of calls has sent a prefix of the source,
      in source order. */
  lemma PlanPrefixSendsPrefix(src: seq<byte>, k: nat)
    requires k <= |Plan(src)|
    ensures Flatten(Payloads(Plan(src)[..k])) <= src
  {
    var frames := Frames(src);
    FramesSound(src);
    var j := if k <= 2 then 0 else if k <= 2 + |frames| then k - 2 else |frames|;
    assert Payloads(Plan(src)[..k]) == frames[..j] by {
      PlanPrefix(src, j);
      var head := [RestoreSnapshot, SendOpen] + ChunkCalls(frames[..j]);
      PayloadsAppend([RestoreSnapshot, SendOpen], ChunkCalls(frames[..j]));
      PayloadsOfChunkCalls(frames[..j]);
      assert Payloads([RestoreSnapshot, SendOpen]) == [] by {
        assert [RestoreSnapshot, SendOpen][1..] == [SendOpen];
        assert [SendOpen][1..] == [];
      }
      if k <= 2 {
        assert Payloads(Plan(src)[..k]) == [] by {
          if k == 2 {
            assert Plan(src)[..k] == [RestoreSnapshot, SendOpen];
          } else if k == 1 {
            assert Plan(src)[..k] == [RestoreSnapshot];
            assert [RestoreSnapshot][1..] == [];
          }
        }
      } else if k == |Plan(src)| {
        assert Plan(src)[..k] == Plan(src);
        PlanPayloads(src);
        assert frames[..j] == frames;
      } else {
        assert Plan(src)[..k] == head;
      }
    }
    FlattenSplit(frames, j);
  }

  /** Event order: the stream is opened first, Open is sent exactly once and second,
      every other call before the last is a chunk, and CloseAndRecv happens exactly
      once, after the last chunk. */
  lemma PlanEventOrder(src: seq<byte>)
    ensures |Plan(src)| == FrameCount(|src|) + 3
    ensures forall i :: 0 <= i < |Plan(src)| ==> (Plan(src)[i] == RestoreSnapshot <==> i == 0)
    ensures forall i :: 0 <= i < |Plan(src)| ==> (Plan(src)[i] == SendOpen <==> i == 1)
    ensures forall i :: 0 <= i < |Plan(src)| ==> (Plan(src)[i].SendChunk? <==> 2 <= i < |Plan(src)| - 1)
    ensures forall i :: 0 <= i < |Plan(src)| ==> (Plan(src)[i] == CloseAndRecv <==> i == |Plan(src)| - 1)
  {
    FramesSound(src);
  }

  /** How a run over `plan` ends when the i-th transport call has outcome ok(i): the
      calls made are the plan up to and including the first failing call (or the whole
      plan), and the status is 1 exactly when a call failed. */
  ghost predicate StopsAtFirstFailure(plan: seq<Call>, ok: nat -> bool, calls: seq<Call>, exit: int)
  {
    && (exit == 0 || exit == 1)
    && 1 <= |calls| <= |plan|
    && calls == plan[..|calls|]
    && (forall i :: 0 <= i < |calls| - 1 ==> ok(i))
    && (exit == 1 <==> !ok(|calls| - 1))
    && (exit == 0 ==> calls == plan)
  }

  /** The planned calls up to the k-th chunk: the stream, Open, and the first k frames. */
  lemma PlanPrefix(src: seq<byte>, k: nat)
    requires k <= |Frames(src)|
    ensures Plan(src)[..2 + k] == [RestoreSnapshot, SendOpen] + ChunkCalls(Frames(src)[..k])
  {
  }

  /** One step of the read loop: the frames still to send start with what the next
      ReadFull returns. */
  lemma NextChunkIsPlanned(src: seq<byte>, sent: seq<seq<byte>>, pos: nat, chunk: seq<byte>)
    requires pos < |src| && chunk == ReadFull(src, pos)
    requires Frames(src) == sent + FramesFrom(src, pos)
    ensures Frames(src) == (sent + [chunk]) + FramesFrom(src, pos + |chunk|)
  {
  }

  /** The planned call after the stream, Open and the first k frames sends frame k. */
  lemma PlanNextChunk(src: seq<byte>, k: nat)
    requires k < |Frames(src)|
    ensures Plan(src)[..3 + k] == Plan(src)[..2 + k] + [SendChunk(Frames(src)[k])]
  {
  }

  /** Bytes consumed by the read loop after one more ReadFull. */
  lemma ConsumedStep(src: seq<byte>, sent: seq<seq<byte>>, pos: nat, chunk: seq<byte>)
    requires pos < |src| && chunk == ReadFull(src, pos)
    requires Flatten(sent) == src[..pos]
    ensures Flatten(sent + [chunk]) == src[..pos + |chunk|]
  {
    FlattenAppend(sent, chunk);
    assert src[..pos + |chunk|] == src[..pos] + chunk;
  }

  /** Once every frame is sent, the only planned call left is CloseAndRecv. */
  lemma PlanCompletes(src: seq<byte>, sent: seq<seq<byte>>)
    requires Frames(src) == sent
    ensures Plan(src) == Plan(src)[..2 + |sent|] + [CloseAndRecv]
  {
  }

  /** A run that stops at a failing call it made along the plan. */
  lemma StopsAtFailedCall(plan: seq<Call>, ok: nat -> bool, calls: seq<Call>)
    requires 1 <= |calls| <= |plan| && calls == plan[..|calls|]
    requires forall i :: 0 <= i < |calls| - 1 ==> ok(i)
    requires !ok(|calls| - 1)
    ensures StopsAtFirstFailure(plan, ok, calls, 1)
  {
  }

  /** A run that carried out the whole plan with every call succeeding, and what the
      server was sent in it. */
  lemma CompletedRun(src: seq<byte>, ok: nat -> bool, calls: seq<Call>)
    requires calls == Plan(src)
    requires forall i :: 0 <= i < |calls| ==> ok(i)
    ensures StopsAtFirstFailure(Plan(src), ok, calls, 0)
    ensures Flatten(Payloads(calls)) == src && WellFramed(Payloads(calls))
  {
    PlanReassembles(src);
  }

  /** One iteration of the read loop keeps the loop's invariant: the consumed bytes
      are the sent chunks, and the calls made are the plan up to the last chunk. */
  lemma LoopStep(src: seq<byte>, sent: seq<seq<byte>>, pos: nat, chunk: seq<byte>)
    requires pos < |src| && chunk == ReadFull(src, pos)
    requires Flatten(sent) == src[..pos]
    requires Frames(src) == sent + FramesFrom(src, pos)
    ensures Flatten(sent + [chunk]) == src[..pos + |chunk|]
    ensures Frames(src) == (sent + [chunk]) + FramesFrom(src, pos + |chunk|)
    ensures Plan(src)[..2 + |sent + [chunk]|] == Plan(src)[..2 + |sent|] + [SendChunk(chunk)]
  {
    NextChunkIsPlanned(src, sent, pos, chunk);
    PlanNextChunk(src, |sent|);
    ConsumedStep(src, sent, pos, chunk);
  }

  /** Uploads `src` over a fresh stream whose i-th call has outcome ok(i): Open, the
      read loop's chunks, then CloseAndRecv, stopping at the first failure. */
  method Upload(src: seq<byte>, ok: nat -> bool) returns (calls: seq<Call>, exit: int)
    ensures StopsAtFirstFailure(Plan(src), ok, calls, exit)
    ensures exit == 0 ==> Flatten(Payloads(calls)) == src && WellFramed(Payloads(calls))
  {
    ghost var plan := Plan(src);
    PlanPrefix(src, 0);
    calls := [RestoreSnapshot];
    if !ok(0) {
      StopsAtFailedCall(plan, ok, calls);
      return calls, 1;
    }
    calls := calls + [SendOpen];
    if !ok(1) {
      StopsAtFailedCall(plan, ok, calls);
      return calls, 1;
    }
    var failed;
    calls, failed := SendChunks(src, ok, calls);
    if failed {
      return calls, 1;
    }
    calls := calls + [CloseAndRecv];
    if !ok(|calls| - 1) {
      StopsAtFailedCall(plan, ok, calls);
      return calls, 1;
    }
    CompletedRun(src, ok, calls);
    return calls, 0;
  }

  /** The read loop, continuing the calls `prefix` already made (stream opened, Open
      sent): either a chunk send fails and the run stops there, or every chunk goes
      out and only CloseAndRecv is left to do. */
  method SendChunks(src: seq<byte>, ok: nat -> bool, prefix: seq<Call>)
    returns (calls: seq<Call>, failed: bool)
    requires prefix == [RestoreSnapshot, SendOpen] && ok(0) && ok(1)
    ensures failed ==> StopsAtFirstFailure(Plan(src), ok, calls, 1)
    ensures !failed ==> Plan(src) == calls + [CloseAndRecv]
    ensures !failed ==> forall i :: 0 <= i < |calls| ==> ok(i)
  {
    ghost var plan := Plan(src);
    PlanPrefix(src, 0);
    calls := prefix;
    var pos := 0;
    ghost var sent: seq<seq<byte>> := [];
    while true
      invariant pos <= |src|
      invariant Flatten(sent) == src[..pos]
      invariant Frames(src) == sent + FramesFrom(src, pos)
      invariant calls == plan[..2 + |sent|]
      invariant forall i :: 0 <= i < |calls| ==> ok(i)
      decreases |src| - pos
    {
      var chunk := ReadFull(src, pos);
      if |chunk| == 0 {
        break;
      }
      LoopStep(src, sent, pos, chunk);
      calls := calls + [SendChunk(chunk)];
      sent := sent + [chunk];
      if !ok(|calls| - 1) {
        StopsAtFailedCall(plan, ok, calls);
        return calls, true;
      }
      pos := pos + |chunk|;
    }
    PlanCompletes(src, sent);
    return calls, false;
  }

  /** The restore command. Returns the transport calls it made, in order, and its
      exit status. */
  method Run(args: seq<string>, w: World) returns (calls: seq<Call>, exit: int)
    ensures exit == 0 || exit == 1
    // a failed Init or source selection exits 1 before any transport call
    ensures !w.initOk || InitReader(args, w.stdinIsTerminal, w.openErr).Failure? ==>
      calls == [] && exit == 1
    // otherwise the selected source is uploaded, stopping at the first failed call
    ensures w.initOk && InitReader(args, w.stdinIsTerminal, w.openErr).Success? ==>
      var src := Contents(w, InitReader(args, w.stdinIsTerminal, w.openErr).value.reader);
      && StopsAtFirstFailure(Plan(src), w.callOk, calls, exit)
      // whatever happened, the chunks sent so far are a prefix of the source
      && Flatten(Payloads(calls)) <= src
      && (exit == 0 ==> Flatten(Payloads(calls)) == src && WellFramed(Payloads(calls)))
  {
    if !w.initOk {
      return [], 1;
    }
    var sel := InitReader(args, w.stdinIsTerminal, w.openErr);
    if sel.Failure? {
      return [], 1;
    }
    var src := Contents(w, sel.value.reader);
    calls, exit := Upload(src, w.callOk);
    PlanPrefixSendsPrefix(src, |calls|);
  }
}
