/**
 * The pipe table of fs/pipe.c as a value: the slots `pipes[]` and the
 * counter `free_pipes`, and what each table operation does to them. The
 * class in pipe_fs.dfy performs these operations in place and is proved
 * to agree with the functions here; the lemmas here say what they mean.
 */
module PipeTable {
  import opened PipeTypes
  import opened PipeProtocol

  /** The VFS result codes these operations return. */
  datatype Status = Ok | Error

  /** `pipe_open`'s result: a slot index or VFS_NOT_FOUND. */
  datatype OpenResult = Handle(index: nat) | NotFound

  /** `pipe_file`'s result: VFS_OK with the name copied out, or VFS_ERROR. */
  datatype FileEntry = Entry(name: string) | NoEntry

  /** `pipefs_t` without its lock. */
  datatype Table = Table(slots: seq<Pipe>, freePipes: int)

  /**
   * The table `pipe_init` leaves: `free_pipes = CONFIG_MAX_PIPES`. `pipe_init`
   * never writes the slots; they are taken to be as a zero-filled page holds
   * them, an assumption about the page allocator that fs/pipe.c does not ensure.
   */
  function InitialTable(capacity: nat, bufferSize: nat): (t: Table)
    ensures |t.slots| == capacity && t.freePipes == capacity
    ensures forall i :: 0 <= i < capacity ==> t.slots[i] == ZeroedPipe(bufferSize)
  {
    Table(seq(capacity, _ => ZeroedPipe(bufferSize)), capacity)
  }

  /* ---------------------------------------------------------------- counting */

  /** The number of PIPE_FREE slots. */
  function FreeCount(s: seq<Pipe>): (n: nat)
    ensures n <= |s|
    decreases |s|
  {
    if s == [] then 0
    else FreeCount(s[..|s| - 1]) + (if s[|s| - 1].state == Free then 1 else 0)
  }

  /** The number of slots in use, i.e. not PIPE_FREE. */
  function LiveCount(s: seq<Pipe>): (n: nat)
    ensures n <= |s|
    decreases |s|
  {
    if s == [] then 0
    else LiveCount(s[..|s| - 1]) + (if s[|s| - 1].state != Free then 1 else 0)
  }

  /** Every slot is either free or in use. */
  lemma {:induction false} CountsPartition(s: seq<Pipe>)
    ensures FreeCount(s) + LiveCount(s) == |s|
    decreases |s|
  {
    if s != [] {
      CountsPartition(s[..|s| - 1]);
    }
  }

  /** Overwriting one slot changes the free count by that slot's change of freeness. */
  lemma {:induction false} FreeCountUpdate(s: seq<Pipe>, i: nat, p: Pipe)
    requires i < |s|
    ensures FreeCount(s[i := p])
         == FreeCount(s) - (if s[i].state == Free then 1 else 0) + (if p.state == Free then 1 else 0)
    decreases |s|
  {
    var n := |s| - 1;
    if i == n {
      assert s[i := p][..n] == s[..n];
    } else {
      assert s[i := p][..n] == s[..n][i := p];
      FreeCountUpdate(s[..n], i, p);
    }
  }

  /** A table of free slots counts all of them. */
  lemma {:induction false} AllFreeCount(s: seq<Pipe>)
    requires forall i :: 0 <= i < |s| ==> s[i].state == Free
    ensures FreeCount(s) == |s|
    decreases |s|
  {
    if s != [] {
      AllFreeCount(s[..|s| - 1]);
    }
  }

  /** The counter invariant: `free_pipes` is the number of PIPE_FREE slots. */
  predicate Consistent(t: Table)
  {
    t.freePipes == FreeCount(t.slots)
  }

  /** The table `pipe_init` leaves satisfies the counter invariant. */
  lemma InitialConsistent(capacity: nat, bufferSize: nat)
    ensures Consistent(InitialTable(capacity, bufferSize))
  {
    AllFreeCount(InitialTable(capacity, bufferSize).slots);
  }

  /* ---------------------------------------------------------------- scans */

  /** The lowest slot at or after `k` whose name is `name`, whatever its state. */
  function FirstNamedFrom(s: seq<Pipe>, name: string, k: nat): (r: Option<nat>)
    requires k <= |s|
    ensures r.Some? ==> k <= r.value < |s| && s[r.value].name == name
    ensures r.Some? ==> forall j :: k <= j < r.value ==> s[j].name != name
    ensures r.None? ==> forall j :: k <= j < |s| ==> s[j].name != name
    decreases |s| - k
  {
    if k == |s| then None
    else if s[k].name == name then Some(k)
    else FirstNamedFrom(s, name, k + 1)
  }

  function FirstNamed(s: seq<Pipe>, name: string): Option<nat>
  {
    FirstNamedFrom(s, name, 0)
  }

  /** The lowest PIPE_FREE slot at or after `k`. */
  function FirstFreeFrom(s: seq<Pipe>, k: nat): (r: Option<nat>)
    requires k <= |s|
    ensures r.Some? ==> k <= r.value < |s| && s[r.value].state == Free
    ensures r.Some? ==> forall j :: k <= j < r.value ==> s[j].state != Free
    ensures r.None? ==> forall j :: k <= j < |s| ==> s[j].state != Free
    decreases |s| - k
  {
    if k == |s| then None
    else if s[k].state == Free then Some(k)
    else FirstFreeFrom(s, k + 1)
  }

  function FirstFree(s: seq<Pipe>): Option<nat>
  {
    FirstFreeFrom(s, 0)
  }

  /** Some slot in use is called `name`. */
  predicate HasLiveName(s: seq<Pipe>, name: string)
  {
    exists i :: 0 <= i < |s| && s[i].state != Free && s[i].name == name
  }

  /**
   * No slot in use shares its name with any slot before it. This makes the
   * names in use unique, and makes every name in use found first at its
   * live slot rather than at a stale free one.
   */
  predicate NamesOrdered(s: seq<Pipe>)
  {
    forall i, j :: 0 <= j < i < |s| && s[i].state != Free ==> s[j].name != s[i].name
  }

  /* ---------------------------------------------------------------- operations */

  /** `pipe_open`: the lowest slot whose name matches, free or not. */
  function OpenOp(t: Table, name: string): (r: OpenResult)
    ensures r.Handle? ==> r.index < |t.slots| && t.slots[r.index].name == name
    ensures r.Handle? ==> forall j :: 0 <= j < r.index ==> t.slots[j].name != name
    ensures r.NotFound? <==> forall j :: 0 <= j < |t.slots| ==> t.slots[j].name != name
  {
    match FirstNamed(t.slots, name)
    case Some(i) => Handle(i)
    case None => NotFound
  }

  /**
   * The slot `pipe_create` writes into a free slot (fs/pipe.c:146-151): in use,
   * named by the stored copy of `name`, with the caller's size and semaphores
   * and the read cursor at the start of the untouched buffer.
   */
  function Occupy(p: Pipe, name: string, size: int, readSem: SemHandle, writeSem: SemHandle, maxName: nat): (q: Pipe)
    requires maxName >= 1
    ensures q.state == Occupied && q.state != Free
    ensures |q.name| < maxName && q.name <= name
    ensures |name| < maxName ==> q.name == name
    ensures q.size == size && q.offset == 0 && q.buffer == p.buffer
    ensures q.readSem == readSem && q.writeSem == writeSem
    ensures |p.buffer| == |q.buffer| && (WellFormed(p, maxName, |p.buffer|) ==> WellFormed(q, maxName, |p.buffer|))
  {
    p.(name := StoredName(name, maxName), size := size, state := Occupied, offset := 0,
       writeSem := writeSem, readSem := readSem)
  }

  /**
   * `pipe_create`: VFS_ERROR if a slot in use is called `name` or no slot is
   * free; otherwise the lowest free slot is occupied and `free_pipes` drops.
   * `readSem`/`writeSem` are what the two `semaphore_create(0)` calls return.
   */
  function CreateOp(t: Table, name: string, size: int, readSem: SemHandle, writeSem: SemHandle, maxName: nat)
    : (r: (Status, Table))
    requires maxName >= 1
    ensures r.0 == Error <==>
      HasLiveName(t.slots, name) || forall j :: 0 <= j < |t.slots| ==> t.slots[j].state != Free
    ensures r.0 == Error ==> r.1 == t
    ensures |r.1.slots| == |t.slots|
  {
    if HasLiveName(t.slots, name) then (Error, t)
    else match FirstFree(t.slots)
      case None => (Error, t)
      case Some(i) =>
        (Ok, Table(t.slots[i := Occupy(t.slots[i], name, size, readSem, writeSem, maxName)], t.freePipes - 1))
  }

  /**
   * `pipe_remove`: VFS_ERROR if no slot is called `name`; otherwise the lowest
   * slot so called is made PIPE_FREE, whatever its state, and `free_pipes` grows.
   */
  function RemoveOp(t: Table, name: string): (r: (Status, Table))
    ensures r.0 == Error <==> forall j :: 0 <= j < |t.slots| ==> t.slots[j].name != name
    ensures r.0 == Error ==> r.1 == t
    ensures |r.1.slots| == |t.slots|
  {
    match FirstNamed(t.slots, name)
    case None => (Error, t)
    case Some(i) => (Ok, Table(t.slots[i := t.slots[i].(state := Free)], t.freePipes + 1))
  }

  /**
   * `pipe_file`: VFS_ERROR for an index past the table or a free slot;
   * otherwise the slot's name as `stringcopy` bounded by the name size copies it.
   */
  function FileOp(t: Table, idx: nat, maxName: nat): (e: FileEntry)
    requires maxName >= 1
    ensures e.Entry? <==> idx < |t.slots| && t.slots[idx].state != Free
    ensures e.Entry? ==> e.name <= t.slots[idx].name
    ensures e.Entry? && |t.slots[idx].name| < maxName ==> e.name == t.slots[idx].name
  {
    if idx >= |t.slots| then NoEntry
    else if t.slots[idx].state == Free then NoEntry
    else Entry(StoredName(t.slots[idx].name, maxName))
  }

  /**
   * `pipe_filecount`: the table size less `free_pipes`, which under the
   * counter invariant is the number of slots in use.
   */
  function FileCountOf(t: Table): (n: int)
    ensures n + t.freePipes == |t.slots|
    ensures Consistent(t) ==> n == LiveCount(t.slots)
  {
    CountsPartition(t.slots);
    |t.slots| - t.freePipes
  }

  /* ---------------------------------------------------------------- properties */

  /**
   * Under the counter invariant, `pipe_getfree` and `pipe_filecount` report
   * the true numbers of free and used slots, both within the table size.
   */
  lemma AdminCounts(t: Table)
    requires Consistent(t)
    ensures t.freePipes == FreeCount(t.slots) && FileCountOf(t) == LiveCount(t.slots)
    ensures 0 <= t.freePipes <= |t.slots| && 0 <= FileCountOf(t) <= |t.slots|
  {
    CountsPartition(t.slots);
  }

  /**
   * A successful create occupies the lowest free slot with the stored name,
   * the given size, offset 0 and the two new semaphores, leaves every other
   * slot as it was and takes exactly one from `free_pipes`.
   */
  lemma CreateSucceeds(t: Table, name: string, size: int, readSem: SemHandle, writeSem: SemHandle, maxName: nat)
    requires maxName >= 1
    requires CreateOp(t, name, size, readSem, writeSem, maxName).0 == Ok
    ensures FirstFree(t.slots).Some?
    ensures var i := FirstFree(t.slots).value;
      var u := CreateOp(t, name, size, readSem, writeSem, maxName).1;
      && t.slots[i].state == Free
      && (forall j :: 0 <= j < i ==> t.slots[j].state != Free)
      && u.slots[i].name == StoredName(name, maxName) && u.slots[i].size == size
      && u.slots[i].state == Occupied && u.slots[i].offset == 0
      && u.slots[i].readSem == readSem && u.slots[i].writeSem == writeSem
      && u.slots[i].buffer == t.slots[i].buffer
      && (forall j :: 0 <= j < |t.slots| && j != i ==> u.slots[j] == t.slots[j])
      && u.freePipes == t.freePipes - 1
  {
  }

  /** Create keeps the counter invariant. */
  lemma CreateConsistent(t: Table, name: string, size: int, readSem: SemHandle, writeSem: SemHandle, maxName: nat)
    requires maxName >= 1 && Consistent(t)
    ensures Consistent(CreateOp(t, name, size, readSem, writeSem, maxName).1)
  {
    match FirstFree(t.slots)
    case None =>
    case Some(i) =>
      if !HasLiveName(t.slots, name) {
        FreeCountUpdate(t.slots, i, Occupy(t.slots[i], name, size, readSem, writeSem, maxName));
      }
  }

  /** A name that fits its slot keeps names ordered, hence unique, across create. */
  lemma CreateNamesOrdered(t: Table, name: string, size: int, readSem: SemHandle, writeSem: SemHandle, maxName: nat)
    requires maxName >= 1 && |name| < maxName && NamesOrdered(t.slots)
    ensures NamesOrdered(CreateOp(t, name, size, readSem, writeSem, maxName).1.slots)
  {
  }

  /** A pipe just created with a name that fits is what opening that name finds. */
  lemma OpenFindsCreated(t: Table, name: string, size: int, readSem: SemHandle, writeSem: SemHandle, maxName: nat)
    requires maxName >= 1 && |name| < maxName
    requires CreateOp(t, name, size, readSem, writeSem, maxName).0 == Ok
    ensures OpenOp(CreateOp(t, name, size, readSem, writeSem, maxName).1, name)
         == Handle(FirstFree(t.slots).value)
  {
    var u := CreateOp(t, name, size, readSem, writeSem, maxName).1;
    var f := FirstFree(t.slots).value;
    forall j | 0 <= j < f
      ensures u.slots[j].name != name
    {
      assert t.slots[j].state != Free;
    }
    assert u.slots[f].name == name;
  }

  /**
   * A successful remove frees the lowest slot called `name`, changes none of
   * its other fields and no other slot, and adds exactly one to `free_pipes`.
   */
  lemma RemoveFreesFirstMatch(t: Table, name: string)
    requires RemoveOp(t, name).0 == Ok
    ensures OpenOp(t, name).Handle?
    ensures var i := OpenOp(t, name).index;
      var u := RemoveOp(t, name).1;
      && u.slots[i] == t.slots[i].(state := Free)
      && (forall j :: 0 <= j < |t.slots| && j != i ==> u.slots[j] == t.slots[j])
      && u.freePipes == t.freePipes + 1
  {
  }

  /**
   * Remove keeps the counter invariant exactly when the slot it frees was in
   * use: removing a stale name leaves `free_pipes` one above the free slots.
   */
  lemma RemoveConsistent(t: Table, name: string)
    requires Consistent(t) && RemoveOp(t, name).0 == Ok
    ensures OpenOp(t, name).Handle?
    ensures Consistent(RemoveOp(t, name).1) <==> t.slots[OpenOp(t, name).index].state != Free
    ensures t.slots[OpenOp(t, name).index].state == Free ==>
      RemoveOp(t, name).1.freePipes == FreeCount(RemoveOp(t, name).1.slots) + 1
  {
    var i := FirstNamed(t.slots, name).value;
    FreeCountUpdate(t.slots, i, t.slots[i].(state := Free));
  }

  /** Remove keeps names ordered: it renames nothing and only frees a slot. */
  lemma RemoveNamesOrdered(t: Table, name: string)
    requires NamesOrdered(t.slots)
    ensures NamesOrdered(RemoveOp(t, name).1.slots)
  {
  }

  /**
   * On a table whose names are ordered, removing a name in use succeeds,
   * frees the live slot (not a stale one) and keeps the counter invariant.
   */
  lemma RemoveLiveName(t: Table, name: string)
    requires Consistent(t) && NamesOrdered(t.slots) && HasLiveName(t.slots, name)
    ensures RemoveOp(t, name).0 == Ok
    ensures t.slots[OpenOp(t, name).index].state != Free
    ensures Consistent(RemoveOp(t, name).1)
  {
    var k :| 0 <= k < |t.slots| && t.slots[k].state != Free && t.slots[k].name == name;
    var i := FirstNamed(t.slots, name).value;
    assert i == k;
    RemoveConsistent(t, name);
  }

  /** Creating then removing the same fitting name restores every state and the counter. */
  lemma CreateThenRemove(t: Table, name: string, size: int, readSem: SemHandle, writeSem: SemHandle, maxName: nat)
    requires maxName >= 1 && |name| < maxName
    requires CreateOp(t, name, size, readSem, writeSem, maxName).0 == Ok
    ensures var u := CreateOp(t, name, size, readSem, writeSem, maxName).1;
      && RemoveOp(u, name).0 == Ok
      && RemoveOp(u, name).1.freePipes == t.freePipes
      && |RemoveOp(u, name).1.slots| == |t.slots|
      && forall j :: 0 <= j < |t.slots| ==> RemoveOp(u, name).1.slots[j].state == t.slots[j].state
  {
    OpenFindsCreated(t, name, size, readSem, writeSem, maxName);
  }

  /** Dispatching reads and writes on one slot keeps the counter invariant. */
  lemma DispatchConsistent(t: Table, i: nat, events: seq<Event>)
    requires Consistent(t) && i < |t.slots|
    ensures Consistent(Table(t.slots[i := Run(t.slots[i], events)], t.freePipes))
  {
    RunKeepsFreeness(t.slots[i], events);
    FreeCountUpdate(t.slots, i, Run(t.slots[i], events));
  }

  /* ---------------------------------------------------------------- histories */

  /** A call on the table by the VFS layer. */
  datatype Call =
    | CreateCall(name: string, size: int, readSem: SemHandle, writeSem: SemHandle)
    | RemoveCall(name: string)

  function Apply(t: Table, c: Call, maxName: nat): Table
    requires maxName >= 1
  {
    match c
    case CreateCall(name, size, rs, ws) => CreateOp(t, name, size, rs, ws, maxName).1
    case RemoveCall(name) => RemoveOp(t, name).1
  }

  /**
   * Calls that keep the table well-kept: created names fit their slot and only
   * names in use are removed.
   */
  predicate Disciplined(t: Table, calls: seq<Call>, maxName: nat)
    requires maxName >= 1
    decreases |calls|
  {
    calls == []
    || (&& (calls[0].CreateCall? ==> |calls[0].name| < maxName)
        && (calls[0].RemoveCall? ==> HasLiveName(t.slots, calls[0].name))
        && Disciplined(Apply(t, calls[0], maxName), calls[1..], maxName))
  }

  function Replay(t: Table, calls: seq<Call>, maxName: nat): Table
    requires maxName >= 1
    decreases |calls|
  {
    if calls == [] then t else Replay(Apply(t, calls[0], maxName), calls[1..], maxName)
  }

  /** Disciplined histories keep the counter invariant and the name order. */
  lemma {:induction false} ReplayKeepsInvariants(t: Table, calls: seq<Call>, maxName: nat)
    requires maxName >= 1
    requires Consistent(t) && NamesOrdered(t.slots) && Disciplined(t, calls, maxName)
    ensures Consistent(Replay(t, calls, maxName)) && NamesOrdered(Replay(t, calls, maxName).slots)
    decreases |calls|
  {
    if calls != [] {
      var c := calls[0];
      match c {
      case CreateCall(name, size, rs, ws) =>
        CreateConsistent(t, name, size, rs, ws, maxName);
        CreateNamesOrdered(t, name, size, rs, ws, maxName);
      case RemoveCall(name) =>
        RemoveLiveName(t, name);
        RemoveNamesOrdered(t, name);
      }
      ReplayKeepsInvariants(Apply(t, c, maxName), calls[1..], maxName);
    }
  }

  /**
   * From `pipe_init`'s table, after any disciplined history, `pipe_getfree`
   * and `pipe_filecount` are the true free and used slot counts and add up
   * to the table size.
   */
  lemma HistoryCounts(capacity: nat, bufferSize: nat, calls: seq<Call>, maxName: nat)
    requires maxName >= 1 && Disciplined(InitialTable(capacity, bufferSize), calls, maxName)
    ensures var t := Replay(InitialTable(capacity, bufferSize), calls, maxName);
      && t.freePipes == FreeCount(t.slots) && FileCountOf(t) == LiveCount(t.slots)
      && 0 <= t.freePipes <= capacity && 0 <= FileCountOf(t) <= capacity
  {
    var t0 := InitialTable(capacity, bufferSize);
    InitialConsistent(capacity, bufferSize);
    ReplayKeepsInvariants(t0, calls, maxName);
    ReplayLength(t0, calls, maxName);
    AdminCounts(Replay(t0, calls, maxName));
  }

  lemma {:induction false} ReplayLength(t: Table, calls: seq<Call>, maxName: nat)
    requires maxName >= 1
    ensures |Replay(t, calls, maxName).slots| == |t.slots|
    decreases |calls|
  {
    if calls != [] {
      ReplayLength(Apply(t, calls[0], maxName), calls[1..], maxName);
    }
  }

  /* ---------------------------------------------------------------- findings */

  /**
   * As written, remove matches names without looking at the state: on a
   * fresh table every slot is called "", so removing "" succeeds, frees the
   * already free slot 0 and leaves `free_pipes` one above the table size and
   * `pipe_filecount` at -1.
   */
  lemma RemoveOnFreshTable(capacity: nat, bufferSize: nat)
    requires capacity >= 1
    ensures var t := InitialTable(capacity, bufferSize);
      && OpenOp(t, "") == Handle(0)
      && RemoveOp(t, "").0 == Ok
      && RemoveOp(t, "").1.freePipes == capacity + 1
      && FileCountOf(RemoveOp(t, "").1) == -1
      && !Consistent(RemoveOp(t, "").1)
  {
  }

  /**
   * Removing a name in use twice: the first remove frees its live slot, the
   * second matches that slot again by its stale name and leaves `free_pipes`
   * one above the true count.
   */
  lemma RemoveTwice(t: Table, name: string)
    requires Consistent(t) && NamesOrdered(t.slots) && HasLiveName(t.slots, name)
    ensures var u := RemoveOp(t, name).1;
      && RemoveOp(t, name).0 == Ok && Consistent(u)
      && RemoveOp(u, name).0 == Ok
      && RemoveOp(u, name).1.freePipes == FreeCount(RemoveOp(u, name).1.slots) + 1
      && !Consistent(RemoveOp(u, name).1)
  {
    RemoveLiveName(t, name);
    var i := OpenOp(t, name).index;
    var u := RemoveOp(t, name).1;
    assert u.slots[i].name == name && u.slots[i].state == Free;
    assert forall j :: 0 <= j < i ==> u.slots[j].name != name;
    assert OpenOp(u, name) == Handle(i);
    RemoveConsistent(u, name);
  }

  /** The lowest slot in use at or after `k` called `name`. */
  function FirstLiveNamedFrom(s: seq<Pipe>, name: string, k: nat): (r: Option<nat>)
    requires k <= |s|
    ensures r.Some? ==> k <= r.value < |s| && s[r.value].state != Free && s[r.value].name == name
    ensures r.Some? ==> forall j :: k <= j < r.value ==> !(s[j].state != Free && s[j].name == name)
    ensures r.None? ==> forall j :: k <= j < |s| ==> !(s[j].state != Free && s[j].name == name)
    decreases |s| - k
  {
    if k == |s| then None
    else if s[k].state != Free && s[k].name == name then Some(k)
    else FirstLiveNamedFrom(s, name, k + 1)
  }

  /**
   * Remove as intended: only a slot in use is matched, as create's duplicate
   * check does; on success one such slot becomes PIPE_FREE and the counter grows.
   */
  function RemoveLiveOp(t: Table, name: string): (r: (Status, Table))
    ensures r.0 == Error <==> !HasLiveName(t.slots, name)
    ensures r.0 == Error ==> r.1 == t
    ensures |r.1.slots| == |t.slots|
    ensures r.0 == Ok ==> r.1.freePipes == t.freePipes + 1
    ensures r.0 == Ok ==> exists i :: 0 <= i < |t.slots| && t.slots[i].state != Free && t.slots[i].name == name
                                  && r.1.slots == t.slots[i := t.slots[i].(state := Free)]
  {
    match FirstLiveNamedFrom(t.slots, name, 0)
    case None => (Error, t)
    case Some(i) => (Ok, Table(t.slots[i := t.slots[i].(state := Free)], t.freePipes + 1))
  }

  /**
   * A successful intended remove frees the lowest slot in use called `name`,
   * changes none of its other fields and no other slot, and adds one to
   * `free_pipes`.
   */
  lemma RemoveLiveFreesFirstLive(t: Table, name: string)
    requires RemoveLiveOp(t, name).0 == Ok
    ensures FirstLiveNamedFrom(t.slots, name, 0).Some?
    ensures var i := FirstLiveNamedFrom(t.slots, name, 0).value;
      var u := RemoveLiveOp(t, name).1;
      && t.slots[i].state != Free && t.slots[i].name == name
      && (forall j :: 0 <= j < i ==> !(t.slots[j].state != Free && t.slots[j].name == name))
      && u.slots[i] == t.slots[i].(state := Free)
      && (forall j :: 0 <= j < |t.slots| && j != i ==> u.slots[j] == t.slots[j])
      && u.freePipes == t.freePipes + 1
  {
  }

  /** The intended remove keeps the counter invariant on every table and every name. */
  lemma RemoveLiveConsistent(t: Table, name: string)
    requires Consistent(t)
    ensures Consistent(RemoveLiveOp(t, name).1)
  {
    match FirstLiveNamedFrom(t.slots, name, 0)
    case None =>
    case Some(i) => FreeCountUpdate(t.slots, i, t.slots[i].(state := Free));
  }

  /**
   * As written, the duplicate check compares the full requested name with
   * the stored, truncated names: a name too long for its slot can be
   * created twice, leaving two pipes in use under one stored name.
   */
  lemma LongNameCreatedTwice(capacity: nat, bufferSize: nat, name: string, maxName: nat,
                             rs1: SemHandle, ws1: SemHandle, rs2: SemHandle, ws2: SemHandle)
    requires capacity >= 2 && maxName >= 1 && |name| >= maxName
    ensures var t0 := InitialTable(capacity, bufferSize);
      var c1 := CreateOp(t0, name, 0, rs1, ws1, maxName);
      var c2 := CreateOp(c1.1, name, 0, rs2, ws2, maxName);
      && c1.0 == Ok && c2.0 == Ok
      && c2.1.slots[0].state != Free && c2.1.slots[1].state != Free
      && c2.1.slots[0].name == c2.1.slots[1].name
      && !NamesOrdered(c2.1.slots)
  {
    var t0 := InitialTable(capacity, bufferSize);
    assert t0.slots[0].state == Free;
    var c1 := CreateOp(t0, name, 0, rs1, ws1, maxName);
    assert FirstFree(t0.slots) == Some(0);
    assert c1.1.slots[1].state == Free;
    assert !HasLiveName(c1.1.slots, name) by {
      forall j | 0 <= j < |c1.1.slots| && c1.1.slots[j].state != Free
        ensures c1.1.slots[j].name != name
      {
        assert j == 0;
      }
    }
    assert FirstFree(c1.1.slots) == Some(1);
  }

  /**
   * Create as intended: the duplicate check compares the name as it would be
   * stored; on success a free slot is occupied and the counter drops.
   */
  function CreateCheckedOp(t: Table, name: string, size: int, readSem: SemHandle, writeSem: SemHandle, maxName: nat)
    : (r: (Status, Table))
    requires maxName >= 1
    ensures r.0 == Error <==>
      HasLiveName(t.slots, StoredName(name, maxName)) || forall j :: 0 <= j < |t.slots| ==> t.slots[j].state != Free
    ensures r.0 == Error ==> r.1 == t
    ensures |r.1.slots| == |t.slots|
    ensures r.0 == Ok ==> r.1.freePipes == t.freePipes - 1
    ensures r.0 == Ok ==> exists i :: 0 <= i < |t.slots| && t.slots[i].state == Free
                                  && r.1.slots == t.slots[i := Occupy(t.slots[i], name, size, readSem, writeSem, maxName)]
  {
    if HasLiveName(t.slots, StoredName(name, maxName)) then (Error, t)
    else match FirstFree(t.slots)
      case None => (Error, t)
      case Some(i) =>
        (Ok, Table(t.slots[i := Occupy(t.slots[i], name, size, readSem, writeSem, maxName)], t.freePipes - 1))
  }

  /** The intended create keeps names ordered, hence unique, for names of any length. */
  lemma CreateCheckedNamesOrdered(t: Table, name: string, size: int, readSem: SemHandle, writeSem: SemHandle, maxName: nat)
    requires maxName >= 1 && NamesOrdered(t.slots)
    ensures NamesOrdered(CreateCheckedOp(t, name, size, readSem, writeSem, maxName).1.slots)
  {
  }

  /**
   * A successful intended create, for a name of any length, fills the lowest
   * free slot exactly as `pipe_create` writes it, leaves every other slot,
   * and drops `free_pipes` by one.
   */
  lemma CreateCheckedSucceeds(t: Table, name: string, size: int, readSem: SemHandle, writeSem: SemHandle, maxName: nat)
    requires maxName >= 1
    requires CreateCheckedOp(t, name, size, readSem, writeSem, maxName).0 == Ok
    ensures FirstFree(t.slots).Some?
    ensures var i := FirstFree(t.slots).value;
      var u := CreateCheckedOp(t, name, size, readSem, writeSem, maxName).1;
      && t.slots[i].state == Free
      && (forall j :: 0 <= j < i ==> t.slots[j].state != Free)
      && u.slots[i].name == StoredName(name, maxName) && u.slots[i].size == size
      && u.slots[i].state == Occupied && u.slots[i].offset == 0
      && u.slots[i].readSem == readSem && u.slots[i].writeSem == writeSem
      && u.slots[i].buffer == t.slots[i].buffer
      && (forall j :: 0 <= j < |t.slots| && j != i ==> u.slots[j] == t.slots[j])
      && u.freePipes == t.freePipes - 1
      && !HasLiveName(t.slots, u.slots[i].name)
  {
  }

  /** For a name that fits, the intended create is the create as written. */
  lemma CreateCheckedAgrees(t: Table, name: string, size: int, readSem: SemHandle, writeSem: SemHandle, maxName: nat)
    requires maxName >= 1 && |name| < maxName
    ensures CreateCheckedOp(t, name, size, readSem, writeSem, maxName)
         == CreateOp(t, name, size, readSem, writeSem, maxName)
  {
  }

  /**
   * As written, a writer whose pipe was removed during its copy loop sets
   * the slot back to PIPE_OCCUPIED without touching `free_pipes`
   * (fs/pipe.c:274), so the counter invariant no longer holds.
   */
  lemma WriteFinishRevivesRemoved(t: Table, i: nat)
    requires Consistent(t) && i < |t.slots| && t.slots[i].state == Free
    ensures !Consistent(Table(t.slots[i := t.slots[i].(state := WriteFinish(t.slots[i].state))], t.freePipes))
  {
    FreeCountUpdate(t.slots, i, t.slots[i].(state := WriteFinish(t.slots[i].state)));
  }

  /** The intended epilogue keeps the counter invariant, removed pipe or not. */
  lemma WriteFinishCheckedConsistent(t: Table, i: nat)
    requires Consistent(t) && i < |t.slots|
    ensures Consistent(Table(t.slots[i := t.slots[i].(state := WriteFinishChecked(t.slots[i].state))], t.freePipes))
  {
    FreeCountUpdate(t.slots, i, t.slots[i].(state := WriteFinishChecked(t.slots[i].state)));
  }
}
