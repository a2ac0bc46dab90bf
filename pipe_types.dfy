/**
 * The slot record of the pipe filesystem and the states a slot can be in
 * (fs/pipe.h). Build-time sizes (maximum name length, buffer capacity) are
 * parameters here, so every fact below holds for every configuration.
 */
module PipeTypes {

  /** `pipe_state_t`, in declaration order: PIPE_FREE is enumerator 0. */
  datatype PipeState = Free | Listening | Streaming | Occupied | InUse

  /** The integer value C gives each enumerator. */
  function Ordinal(s: PipeState): (n: nat)
    ensures n < 5
    ensures n == 0 <==> s == Free
  {
    match s
    case Free => 0
    case Listening => 1
    case Streaming => 2
    case Occupied => 3
    case InUse => 4
  }

  /** Reads a stored integer back as a state; values outside the enum are no state. */
  function StateOf(n: int): (r: Option<PipeState>)
    ensures r.Some? <==> 0 <= n < 5
  {
    if n == 0 then Some(Free)
    else if n == 1 then Some(Listening)
    else if n == 2 then Some(Streaming)
    else if n == 3 then Some(Occupied)
    else if n == 4 then Some(InUse)
    else None
  }

  datatype Option<T> = None | Some(value: T)

  /** The enumerators and their values are in one-to-one correspondence. */
  lemma StateOfOrdinal(s: PipeState)
    ensures StateOf(Ordinal(s)) == Some(s)
  {
  }

  /** Zero-filled memory reads as PIPE_FREE. */
  lemma ZeroIsFree()
    ensures StateOf(0) == Some(Free)
  {
  }

  /** A `semaphore_t *`: NULL in zeroed memory, otherwise some semaphore. */
  datatype SemHandle = NullSem | Sem(id: nat)

  /**
   * `pipe_t`. `name` holds the characters before the terminating NUL;
   * `buffer` is the fixed `char buffer[CONFIG_PIPE_BUFFER_SIZE]`.
   */
  datatype Pipe = Pipe(
    name: string,
    state: PipeState,
    size: int,
    offset: int,
    buffer: seq<char>,
    readSem: SemHandle,
    writeSem: SemHandle)

  /** A slot in memory that was never written: all bytes zero. */
  function ZeroedPipe(bufferSize: nat): (p: Pipe)
    ensures Some(p.state) == StateOf(0)
    ensures p.name == [] && p.size == 0 && p.offset == 0
    ensures |p.buffer| == bufferSize
    ensures p.readSem == NullSem && p.writeSem == NullSem
  {
    Pipe([], Free, 0, 0, seq(bufferSize, _ => '\0'), NullSem, NullSem)
  }

  /**
   * A slot's shape: the name with its terminator fits `char name[maxName]`,
   * the buffer has its fixed capacity and the read cursor lies within it.
   */
  predicate WellFormed(p: Pipe, maxName: nat, bufferSize: nat)
  {
    |p.name| < maxName && |p.buffer| == bufferSize && 0 <= p.offset <= bufferSize
  }

  /**
   * What `stringcopy(dst, name, maxName)` leaves in a `char[maxName]`: at most
   * maxName - 1 characters of `name`, then the terminator.
   */
  function StoredName(name: string, maxName: nat): (s: string)
    requires maxName >= 1
    ensures |s| < maxName
    ensures s <= name
    ensures |name| < maxName <==> s == name
  {
    if |name| < maxName then name else name[..maxName - 1]
  }
}
