/**
 * The per-pipe state machine of fs/pipe.c: the `switch` on a slot's state
 * that opens every iteration of the `while (1)` loops of `pipe_read` and
 * `pipe_write`, lifted into step functions, together with the chunk and
 * return-value arithmetic of the two calls. The blocking copy loops
 * themselves are not modelled.
 */
module PipeProtocol {
  import opened PipeTypes

  /** What a reader does after the switch of `pipe_read`. */
  datatype ReadAction =
    | ReadFail                 // return VFS_ERROR
    | ReadSleep                // enqueue on read_sem and retry
    | ReadWakeWriterThenSleep  // wake one writer, then enqueue on read_sem and retry
    | ReadCopy                 // enter the copy loop

  datatype ReadStepResult = ReadStepResult(next: PipeState, action: ReadAction)

  /** One dispatch of `pipe_read` on a slot in state `s`. */
  function ReadStep(s: PipeState): (r: ReadStepResult)
    ensures r.action == ReadFail <==> s == Free
    ensures r.next == Free <==> s == Free
    ensures r.action == ReadCopy <==> s == Streaming
    ensures r.action == ReadCopy ==> r.next == InUse
    ensures r.action == ReadWakeWriterThenSleep <==> s == Occupied
    ensures r.action == ReadWakeWriterThenSleep ==> r.next == Listening
    ensures r.action in {ReadFail, ReadSleep} ==> r.next == s
  {
    match s
    case Free => ReadStepResult(Free, ReadFail)
    case Listening => ReadStepResult(Listening, ReadSleep)
    case Streaming => ReadStepResult(InUse, ReadCopy)
    case Occupied => ReadStepResult(Listening, ReadWakeWriterThenSleep)
    case InUse => ReadStepResult(InUse, ReadSleep)
  }

  /** What a writer does after the switch of `pipe_write`. */
  datatype WriteAction =
    | WriteFail   // return VFS_ERROR
    | WriteSleep  // enqueue on write_sem, wake one reader and retry
    | WriteCopy   // wake the reader and enter the copy loop

  datatype WriteStepResult = WriteStepResult(next: PipeState, size: int, action: WriteAction)

  /**
   * One dispatch of `pipe_write(…, datasize, …)` on a slot in state `s`
   * whose `size` field is `size`. PIPE_INUSE falls to the `default` arm.
   */
  function WriteStep(s: PipeState, size: int, datasize: int): (r: WriteStepResult)
    ensures r.action == WriteFail <==> s in {Free, InUse}
    ensures r.next == Free <==> s == Free
    ensures r.action == WriteCopy <==> s == Listening
    ensures r.action == WriteCopy ==> r.next == Streaming && r.size == datasize
    ensures r.action != WriteCopy ==> r.next == s && r.size == size
  {
    match s
    case Free => WriteStepResult(Free, size, WriteFail)
    case Listening => WriteStepResult(Streaming, datasize, WriteCopy)
    case Streaming => WriteStepResult(Streaming, size, WriteSleep)
    case Occupied => WriteStepResult(Occupied, size, WriteSleep)
    case InUse => WriteStepResult(InUse, size, WriteFail)
  }

  /**
   * A reader that starts copying holds the pipe alone: a second reader
   * arriving next sleeps, and a writer arriving next is turned away.
   */
  lemma OneReaderCopies(s: PipeState, size: int, datasize: int)
    requires ReadStep(s).action == ReadCopy
    ensures ReadStep(ReadStep(s).next).action == ReadSleep
    ensures WriteStep(ReadStep(s).next, size, datasize).action == WriteFail
  {
  }

  /**
   * A second writer that dispatches after the first one has published
   * PIPE_STREAMING sleeps. Since `pipe_write` reads the state outside the
   * lock, two writers that both read PIPE_LISTENING before either writes
   * PIPE_STREAMING both start copying; this lemma does not cover that race.
   */
  lemma OneWriterCopies(s: PipeState, size: int, datasize: int, size2: int, datasize2: int)
    requires WriteStep(s, size, datasize).action == WriteCopy
    ensures WriteStep(WriteStep(s, size, datasize).next, size2, datasize2).action == WriteSleep
  {
  }

  /**
   * One fixed trace, illustrating how the arms fit together.
   * The rendezvous on an idle pipe: a reader arrives and starts listening,
   * a writer then announces `datasize` bytes and starts copying, and the
   * reader's retry enters its copy loop with the pipe in PIPE_INUSE.
   */
  lemma Rendezvous(size: int, datasize: int)
    ensures ReadStep(Occupied).next == Listening
    ensures WriteStep(Listening, size, datasize) == WriteStepResult(Streaming, datasize, WriteCopy)
    ensures ReadStep(Streaming) == ReadStepResult(InUse, ReadCopy)
  {
  }

  /** The events that drive a slot's state machine between create and remove. */
  datatype Event = ReadEvent | WriteEvent(datasize: int)

  /** The slot after a sequence of dispatches, in order. */
  function Dispatch(p: Pipe, e: Event): Pipe
  {
    match e
    case ReadEvent => p.(state := ReadStep(p.state).next)
    case WriteEvent(d) =>
      var w := WriteStep(p.state, p.size, d);
      p.(state := w.next, size := w.size)
  }

  function Run(p: Pipe, events: seq<Event>): Pipe
    decreases |events|
  {
    if events == [] then p else Run(Dispatch(p, events[0]), events[1..])
  }

  /**
   * Dispatch alone never frees a slot nor brings a free one to life, and
   * touches nothing but `state` and `size`. This covers the dispatch step only:
   * the copy loops, which are not modelled, can write the state of a removed
   * slot (fs/pipe.c:213-216, 274).
   */
  lemma {:induction false} RunKeepsFreeness(p: Pipe, events: seq<Event>)
    ensures (Run(p, events).state == Free) == (p.state == Free)
    ensures Run(p, events).name == p.name && Run(p, events).offset == p.offset
    ensures Run(p, events).buffer == p.buffer
    ensures Run(p, events).readSem == p.readSem && Run(p, events).writeSem == p.writeSem
    decreases |events|
  {
    if events != [] {
      RunKeepsFreeness(Dispatch(p, events[0]), events[1..]);
    }
  }

  /**
   * Across any dispatches, `size` only ever holds the value it had or the
   * `datasize` of some write event.
   */
  lemma {:induction false} RunSizeFromWriter(p: Pipe, events: seq<Event>)
    ensures Run(p, events).size == p.size
         || exists k :: 0 <= k < |events| && events[k] == WriteEvent(Run(p, events).size)
    decreases |events|
  {
    if events != [] {
      var q := Dispatch(p, events[0]);
      RunSizeFromWriter(q, events[1..]);
      var last := Run(q, events[1..]);
      assert Run(p, events) == last;
      if last.size == q.size {
        if q.size != p.size {
          assert events[0] == WriteEvent(last.size);
        }
      } else {
        var k :| 0 <= k < |events[1..]| && events[1..][k] == WriteEvent(last.size);
        assert events[k + 1] == WriteEvent(last.size);
      }
    }
  }

  /**
   * The chunk a reader copies (fs/pipe.c:201-204): what it still wants, or
   * the room left in the buffer after `offset`, whichever is smaller.
   */
  function ReadChunk(bytesRemaining: int, offset: int, bufferSize: nat): (n: int)
    ensures n <= bytesRemaining && n <= bufferSize - offset
    ensures n == bytesRemaining || n == bufferSize - offset
  {
    var room := bufferSize - offset;
    if bytesRemaining < room then bytesRemaining else room
  }

  /** With the cursor in the buffer, a chunk never reads past its end. */
  lemma ReadChunkFits(bytesRemaining: int, offset: int, bufferSize: nat)
    requires 0 <= offset <= bufferSize && bytesRemaining >= 0
    ensures 0 <= ReadChunk(bytesRemaining, offset, bufferSize) <= bufferSize
    ensures offset + ReadChunk(bytesRemaining, offset, bufferSize) <= bufferSize
  {
  }

  /**
   * `datasize` after `chunks` turns of the writer's copy loop, each of which
   * subtracts a whole buffer (fs/pipe.c:269). It shrinks with every turn, and
   * the loop's `datasize > 0` test fails exactly when the whole buffers
   * copied cover the request.
   */
  function WriteRemaining(datasize: int, chunks: nat, bufferSize: nat): (r: int)
    ensures r <= datasize
    ensures chunks > 0 && bufferSize > 0 ==> r < datasize
    ensures r <= 0 <==> chunks * bufferSize >= datasize
  {
    datasize - chunks * bufferSize
  }

  /**
   * The value `pipe_write` returns (fs/pipe.c:263,275-279), from the
   * requested `datasize` and what is left of it when the loop ends.
   */
  function WriteReturn(requested: int, remaining: int): (r: int)
    ensures r <= requested
    ensures remaining >= 0 ==> r + remaining == requested
  {
    if remaining < 0 then requested else requested - remaining
  }

  /**
   * The return value counts the bytes of the whole chunks copied, capped at
   * the request.
   */
  lemma WriteReturnCountsChunks(datasize: int, chunks: nat, bufferSize: nat)
    ensures var r := WriteReturn(datasize, WriteRemaining(datasize, chunks, bufferSize));
      r <= datasize && r <= chunks * bufferSize
      && (r == datasize || r == chunks * bufferSize)
  {
  }

  /** A writer whose loop ran to completion reports the whole request. */
  lemma WriteReturnComplete(datasize: int, chunks: nat, bufferSize: nat)
    requires chunks * bufferSize >= datasize
    ensures WriteReturn(datasize, WriteRemaining(datasize, chunks, bufferSize)) == datasize
  {
  }

  /**
   * The state a writer leaves behind after its copy loop, as written at
   * fs/pipe.c:274: PIPE_OCCUPIED whatever the loop ended on, PIPE_FREE included.
   */
  function WriteFinish(s: PipeState): (r: PipeState)
    ensures r != Free
  {
    Occupied
  }

  /** The same epilogue, leaving a removed pipe removed. */
  function WriteFinishChecked(s: PipeState): (r: PipeState)
    ensures (r == Free) == (s == Free)
    ensures s != Free ==> r == Occupied
  {
    if s == Free then Free else Occupied
  }
}
