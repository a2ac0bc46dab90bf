/**
 * The pipe filesystem of fs/pipe.c as it runs: one object holding the slot
 * array `pipes[]` and the counter `free_pipes`, updated in place by the
 * table operations and by the state dispatch of `pipe_read`/`pipe_write`.
 * Each method is proved to do to the table what the matching function of
 * PipeTable says. The table lock is not modelled: every method here is one
 * critical section.
 */
module PipeFileSystem {
  import opened PipeTypes
  import opened PipeProtocol
  import opened PipeTable

  class PipeFs {
    /** `pipefs_t.pipes`, CONFIG_MAX_PIPES slots stored inline. */
    const pipes: array<Pipe>
    /** `pipefs_t.free_pipes`. */
    var freePipes: int
    /** CONFIG_PIPE_MAX_NAME: the size of a slot's name array, terminator included. */
    const maxName: nat
    /** CONFIG_PIPE_BUFFER_SIZE: the capacity of a slot's data buffer. */
    const bufferSize: nat

    /** Every slot keeps its shape; the counter is not part of this (see Consistent). */
    ghost predicate Valid()
      reads this, pipes
    {
      maxName >= 1 && forall i :: 0 <= i < pipes.Length ==> WellFormed(pipes[i], maxName, bufferSize)
    }

    /** The table this object holds. */
    function Abs(): Table
      reads this, pipes
    {
      Table(pipes[..], freePipes)
    }

    /**
     * `pipe_init`, without its allocations: `free_pipes` is the table size.
     * The slots, which `pipe_init` never writes, are assumed to be as zeroed
     * memory holds them, PIPE_FREE with an empty name.
     */
    constructor (capacity: nat, maxName: nat, bufferSize: nat)
      requires maxName >= 1
      ensures Valid() && fresh(pipes)
      ensures this.maxName == maxName && this.bufferSize == bufferSize
      ensures Abs() == InitialTable(capacity, bufferSize)
      ensures Consistent(Abs())
    {
      this.maxName := maxName;
      this.bufferSize := bufferSize;
      pipes := new Pipe[capacity](_ => ZeroedPipe(bufferSize));
      freePipes := capacity;
      new;
      InitialConsistent(capacity, bufferSize);
    }

    /** `pipe_open`: scan for the first slot called `name`. */
    method Open(name: string) returns (r: OpenResult)
      requires Valid()
      ensures r == OpenOp(Abs(), name)
    {
      var i := 0;
      while i < pipes.Length
        invariant 0 <= i <= pipes.Length
        invariant forall j :: 0 <= j < i ==> pipes[j].name != name
      {
        if pipes[i].name == name {
          return Handle(i);
        }
        i := i + 1;
      }
      return NotFound;
    }

    /** `pipe_close`: nothing to do. */
    method Close(fileid: int) returns (r: Status)
      ensures r == Ok
    {
      return Ok;
    }

    /**
     * `pipe_create`: one scan that fails on a live duplicate and remembers the
     * first free slot, then the slot is filled in and the counter dropped.
     */
    method Create(name: string, size: int, readSem: SemHandle, writeSem: SemHandle) returns (r: Status)
      requires Valid()
      modifies pipes, this`freePipes
      ensures Valid()
      ensures (r, Abs()) == CreateOp(old(Abs()), name, size, readSem, writeSem, maxName)
      ensures old(Consistent(Abs())) ==> Consistent(Abs())
    {
      ghost var t := Abs();
      if Consistent(t) {
        CreateConsistent(t, name, size, readSem, writeSem, maxName);
      }
      var pid := -1;
      var i := 0;
      while i < pipes.Length
        invariant 0 <= i <= pipes.Length
        invariant forall j :: 0 <= j < i ==> !(pipes[j].state != Free && pipes[j].name == name)
        invariant pid < 0 ==> pid == -1 && forall j :: 0 <= j < i ==> pipes[j].state != Free
        invariant pid >= 0 ==> pid < i && pipes[pid].state == Free
        invariant pid >= 0 ==> forall j :: 0 <= j < pid ==> pipes[j].state != Free
      {
        if pipes[i].state != Free && pipes[i].name == name {
          assert HasLiveName(t.slots, name);
          return Error;
        }
        if pid < 0 && pipes[i].state == Free {
          pid := i;
        }
        i := i + 1;
      }
      if pid < 0 {
        return Error;
      }
      assert FirstFree(t.slots) == Some(pid);
      pipes[pid] := Occupy(pipes[pid], name, size, readSem, writeSem, maxName);
      freePipes := freePipes - 1;
      return Ok;
    }

    /**
     * `pipe_remove`: the first slot called `name` becomes PIPE_FREE and the
     * counter grows; callers woken at the dispatch then see PIPE_FREE, unless
     * the slot was revived (fs/pipe.c:213-216, 274) or re-created before they run.
     */
    method Remove(name: string) returns (r: Status)
      requires Valid()
      modifies pipes, this`freePipes
      ensures Valid()
      ensures (r, Abs()) == RemoveOp(old(Abs()), name)
    {
      var i := 0;
      while i < pipes.Length
        invariant 0 <= i <= pipes.Length
        invariant forall j :: 0 <= j < i ==> pipes[j].name != name
      {
        if pipes[i].name == name {
          pipes[i] := pipes[i].(state := Free);
          freePipes := freePipes + 1;
          return Ok;
        }
        i := i + 1;
      }
      return Error;
    }

    /** `pipe_getfree`. */
    method GetFree() returns (n: int)
      requires Valid()
      ensures n == freePipes
      ensures Consistent(Abs()) ==> n == FreeCount(pipes[..]) && 0 <= n <= pipes.Length
    {
      n := freePipes;
    }

    /** `pipe_filecount`: the directory argument is ignored. */
    method FileCount(dirname: string) returns (n: int)
      requires Valid()
      ensures n == FileCountOf(Abs())
      ensures Consistent(Abs()) ==> n == LiveCount(pipes[..]) && 0 <= n <= pipes.Length
    {
      if Consistent(Abs()) {
        AdminCounts(Abs());
      }
      n := pipes.Length - freePipes;
    }

    /** `pipe_file`: the name of slot `idx` if it is in use. */
    method File(dirname: string, idx: nat) returns (e: FileEntry)
      requires Valid()
      ensures e == FileOp(Abs(), idx, maxName)
      ensures e.Entry? ==> e.name == pipes[idx].name
    {
      if idx >= pipes.Length {
        return NoEntry;
      }
      if pipes[idx].state == Free {
        return NoEntry;
      }
      return Entry(StoredName(pipes[idx].name, maxName));
    }

    /**
     * The `switch` opening each turn of `pipe_read`'s loop on slot `fileid`:
     * the slot's state moves as ReadStep says and nothing else changes.
     */
    method ReadDispatch(fileid: nat) returns (a: ReadAction)
      requires Valid() && fileid < pipes.Length
      modifies pipes
      ensures Valid()
      ensures a == ReadStep(old(pipes[fileid].state)).action
      ensures pipes[..] == old(pipes[..])[fileid := Dispatch(old(pipes[fileid]), ReadEvent)]
      ensures old(Consistent(Abs())) ==> Consistent(Abs())
    {
      if Consistent(Abs()) {
        DispatchConsistent(Abs(), fileid, [ReadEvent]);
        assert Run(pipes[fileid], [ReadEvent]) == Dispatch(pipes[fileid], ReadEvent);
      }
      var step := ReadStep(pipes[fileid].state);
      pipes[fileid] := pipes[fileid].(state := step.next);
      a := step.action;
    }

    /**
     * The `switch` opening each turn of `pipe_write`'s loop on slot `fileid`
     * for a message of `datasize` bytes.
     */
    method WriteDispatch(fileid: nat, datasize: int) returns (a: WriteAction)
      requires Valid() && fileid < pipes.Length
      modifies pipes
      ensures Valid()
      ensures a == WriteStep(old(pipes[fileid].state), old(pipes[fileid].size), datasize).action
      ensures pipes[..] == old(pipes[..])[fileid := Dispatch(old(pipes[fileid]), WriteEvent(datasize))]
      ensures old(Consistent(Abs())) ==> Consistent(Abs())
    {
      if Consistent(Abs()) {
        DispatchConsistent(Abs(), fileid, [WriteEvent(datasize)]);
        assert Run(pipes[fileid], [WriteEvent(datasize)]) == Dispatch(pipes[fileid], WriteEvent(datasize));
      }
      var step := WriteStep(pipes[fileid].state, pipes[fileid].size, datasize);
      pipes[fileid] := pipes[fileid].(state := step.next, size := step.size);
      a := step.action;
    }
  }
}
