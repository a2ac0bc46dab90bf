# Pipe filesystem: a verified model

This project models the pipe filesystem of a small teaching kernel: a
fixed table of named pipes (`fs/pipe.c`, `fs/pipe.h`). Each pipe has a
single fixed-size buffer through which one writer hands a message to one
reader.

It has four modules:

- `PipeTypes` (`pipe_types.dfy`) holds the slot record `pipe_t` and the
  five-valued `pipe_state_t`. It also gives the enumerator values, so that
  zeroed memory reads as `PIPE_FREE`. `StoredName` gives what is left of a
  name after it is copied into the bounded `name` array.
- `PipeProtocol` (`pipe_protocol.dfy`) holds the `switch` that begins each
  turn of the `pipe_read` and `pipe_write` loops. Here it is a pair of step
  functions, `ReadStep` and `WriteStep`. The module also holds the read-chunk
  and write-return arithmetic, and the write epilogue.
- `PipeTable` (`pipe_table.dfy`) describes the table (`pipes[]` plus
  `free_pipes`) as a value. It gives each table operation as a function and
  proves the properties: the counter invariant, lowest-free-slot allocation,
  name lookup, and removal.
- `PipeFileSystem` (`pipe_fs.dfy`) holds the class `PipeFs`, the running
  filesystem. It keeps an `array<Pipe>` and a `freePipes` field and updates
  both in place. Each method is proved to do what the matching
  `PipeTable` or `PipeProtocol` function says.

The build-time sizes `CONFIG_MAX_PIPES`, `CONFIG_PIPE_MAX_NAME` and
`CONFIG_PIPE_BUFFER_SIZE` are parameters here, so every result holds for
every configuration. `kernel/config.h` is not part of this model.

Facts about the code that the model keeps as they are:

- `pipe_create` returns `VFS_OK` on success. A duplicate name and a full
  table both give the same `VFS_ERROR`.
- A slot is in one of five states: `PIPE_FREE`, `PIPE_LISTENING`,
  `PIPE_STREAMING`, `PIPE_OCCUPIED` and `PIPE_INUSE`.
- `pipe_open` and `pipe_remove` match a name without looking at the slot's
  state.
- A writer that finds the pipe `PIPE_INUSE` gets `VFS_ERROR` at once.
- `pipe_create` stores its `size` argument in the slot's `size` field.

## Model

| member | source | states |
|---|---|---|
| PipeTypes.Ordinal | fs/pipe.h:14-20 | there are exactly five states, and `PIPE_FREE` is the only one with value 0 |
| PipeTypes.StateOf | fs/pipe.h:14-20 | a stored integer is a state exactly when it lies in 0..4 |
| PipeTypes.StateOfOrdinal | fs/pipe.h:14-20 | decoding an enumerator's value gives that enumerator back |
| PipeTypes.ZeroIsFree | fs/pipe.h:15 | zeroed memory reads as `PIPE_FREE` |
| PipeTypes.ZeroedPipe | fs/pipe.h:22-32 | a never-written slot is free, has an empty name, size and offset 0, a full-capacity buffer and NULL semaphores |
| PipeTypes.StoredName | fs/pipe.c:146 | a copied name fits `char name[CONFIG_PIPE_MAX_NAME]` with its terminator and is a prefix of the request; it is the request itself exactly when the request fits |
| PipeProtocol.ReadStep | fs/pipe.c:190-237 | a read fails exactly on `FREE`; it enters the copy loop exactly from `STREAMING`, leaving `INUSE`; `OCCUPIED` becomes `LISTENING` and wakes a writer; `LISTENING` and `INUSE` sleep unchanged; no step frees a slot or brings a free one to life |
| PipeProtocol.WriteStep | fs/pipe.c:254-288 | a write fails exactly on `FREE` and `INUSE`; it enters the copy loop exactly from `LISTENING`, leaving `STREAMING` with `size = datasize`; otherwise state and size are unchanged |
| PipeProtocol.OneReaderCopies | fs/pipe.c:196-197 | once a reader enters its copy loop, the next reader sleeps and the next writer is refused |
| PipeProtocol.OneWriterCopies | fs/pipe.c:257-260 | a writer whose dispatch comes after a first writer has set `PIPE_STREAMING` sleeps (the unlocked-read race is in Left out) |
| PipeProtocol.Rendezvous | fs/pipe.c:196-260 | one fixed trace, as an illustration of the three arms: on an idle pipe a reader starts listening, a writer then publishes its size and starts streaming, and the reader's retry starts copying |
| PipeProtocol.RunKeepsFreeness | fs/pipe.c:188-297 | any sequence of read and write dispatches keeps a slot free or in use as it was; name, offset, buffer and semaphores stay unchanged |
| PipeProtocol.RunSizeFromWriter | fs/pipe.c:259 | after any dispatches a slot's `size` is its old value or the `datasize` of one of the writes |
| PipeProtocol.ReadChunk | fs/pipe.c:201-204 | the chunk is the smaller of the bytes still wanted and the room left in the buffer after `offset` |
| PipeProtocol.ReadChunkFits | fs/pipe.c:201-208 | with `offset` within the buffer and a non-negative request, the chunk lies in `[0, CONFIG_PIPE_BUFFER_SIZE]` and `offset + chunk` stays within the buffer |
| PipeProtocol.WriteRemaining | fs/pipe.c:269 | what is left of `datasize` after k whole-buffer decrements: it never grows, it shrinks with each turn when the buffer is not empty, and it is at most 0 exactly when k buffers cover the request |
| PipeProtocol.WriteReturn | fs/pipe.c:275-279 | the value returned never exceeds the requested `datasize`; while some of the request is left, returned plus left equals requested |
| PipeProtocol.WriteReturnCountsChunks | fs/pipe.c:263-279 | after k turns of the copy loop the write returns the smaller of `datasize` and k whole buffers |
| PipeProtocol.WriteReturnComplete | fs/pipe.c:263-279 | a copy loop that covered the whole message returns exactly `datasize` |
| PipeProtocol.WriteFinish | fs/pipe.c:274 | as written, the writer always leaves the slot in use, even a removed one |
| PipeProtocol.WriteFinishChecked | fs/pipe.c:274 | the intended epilogue leaves a removed slot free and otherwise `OCCUPIED` |
| PipeTable.InitialTable | fs/pipe.c:68 | the table `pipe_init` leaves has `free_pipes = CONFIG_MAX_PIPES`; its slots, which `pipe_init` never writes, are taken to be zeroed (an assumption, see Left out) |
| PipeTable.FreeCount | fs/pipe.c:23 | the number of free slots is at most the table size |
| PipeTable.LiveCount | fs/pipe.c:318-320 | the number of slots in use is at most the table size |
| PipeTable.CountsPartition | fs/pipe.c:318-320 | free and in-use slots together make up the whole table |
| PipeTable.FreeCountUpdate | fs/pipe.c:152 | overwriting one slot changes the free count by exactly that slot's change of freeness |
| PipeTable.AllFreeCount | fs/pipe.c:68 | a table whose slots are all free counts every slot as free |
| PipeTable.InitialConsistent | fs/pipe.c:68 | the initial table satisfies the counter invariant `free_pipes == number of PIPE_FREE slots` |
| PipeTable.FirstNamedFrom | fs/pipe.c:103-108 | the scan returns the lowest matching index at or after its start; with no match, no slot there has the name |
| PipeTable.FirstFreeFrom | fs/pipe.c:136-138 | the scan returns the lowest free index at or after its start; with no such index, no slot there is free |
| PipeTable.OpenOp | fs/pipe.c:96-111 | open returns the lowest index whose name matches, whatever its state; it returns `VFS_NOT_FOUND` exactly when no slot has the name |
| PipeTable.Occupy | fs/pipe.c:146-151 | the slot create writes is `PIPE_OCCUPIED`, holds the stored name (a prefix of the requested one, equal to it when it fits), the given size and both semaphores, offset 0, and the old buffer; a well-formed slot stays well-formed |
| PipeTable.CreateOp | fs/pipe.c:120-155 | create fails exactly when a slot in use already has the name or no slot is free, and on failure the table is unchanged |
| PipeTable.CreateSucceeds | fs/pipe.c:136-154 | a successful create takes the lowest free slot and sets its name, size, `OCCUPIED`, offset 0 and both semaphores; it changes no other slot and lowers `free_pipes` by exactly one |
| PipeTable.CreateConsistent | fs/pipe.c:152 | create keeps the counter invariant |
| PipeTable.CreateNamesOrdered | fs/pipe.c:130-139 | for a name that fits, create keeps the names of slots in use unique, and keeps each one found before any stale copy |
| PipeTable.OpenFindsCreated | fs/pipe.c:103-106 | opening a name just created (one that fits) finds the slot create chose |
| PipeTable.RemoveOp | fs/pipe.c:157-176 | remove fails exactly when no slot has the name, and on failure changes nothing |
| PipeTable.RemoveFreesFirstMatch | fs/pipe.c:164-171 | a successful remove frees the lowest slot with the name, changes no other field and no other slot, and raises `free_pipes` by exactly one |
| PipeTable.RemoveConsistent | fs/pipe.c:165-167 | remove keeps the counter invariant exactly when the slot it frees was in use; removing a stale free slot leaves `free_pipes` one above the true count |
| PipeTable.RemoveNamesOrdered | fs/pipe.c:164-166 | remove keeps the names of slots in use unique and first-found |
| PipeTable.RemoveLiveName | fs/pipe.c:164-171 | on a well-kept table, removing a name in use succeeds, frees the live slot and keeps the counter invariant |
| PipeTable.CreateThenRemove | fs/pipe.c:120-176 | creating and then removing the same fitting name restores `free_pipes` and every slot's state |
| PipeTable.DispatchConsistent | fs/pipe.c:188-297 | read and write dispatches on any slot keep the counter invariant |
| PipeTable.FileOp | fs/pipe.c:323-343 | a file listing fails exactly for an index past the table or a free slot; otherwise it returns the slot's name, bounded by the name size |
| PipeTable.FileCountOf | fs/pipe.c:310-321 | the file count and `free_pipes` always add up to the table size; under the counter invariant the file count is the number of slots in use |
| PipeTable.AdminCounts | fs/pipe.c:299-321 | under the counter invariant, `getfree` and `filecount` are the true numbers of free and used slots, each within the table size |
| PipeTable.ReplayKeepsInvariants | fs/pipe.c:120-176 | any history of creates with fitting names and removes of names in use keeps the counter invariant and unique names |
| PipeTable.ReplayLength | fs/pipe.c:22 | no history of creates and removes changes the table size |
| PipeTable.HistoryCounts | fs/pipe.c:299-321 | after such a history from `pipe_init`'s table, `getfree` and `filecount` are the true counts and add up to `CONFIG_MAX_PIPES` |
| PipeTable.RemoveOnFreshTable | fs/pipe.c:164-167 | on a fresh table, opening "" finds slot 0, and removing "" succeeds, leaving `free_pipes = CONFIG_MAX_PIPES + 1` and `filecount = -1` |
| PipeTable.RemoveTwice | fs/pipe.c:164-167 | on a well-kept table, removing a name in use succeeds and keeps the counter invariant, and removing it again also succeeds and leaves `free_pipes` one above the true count |
| PipeTable.FirstLiveNamedFrom | fs/pipe.c:131-132 | the scan returns the lowest slot in use with the name at or after its start (no slot in use between its start and the result has the name); with no such slot, none there is in use under that name |
| PipeTable.RemoveLiveOp | fs/pipe.c:157-176 | the intended remove fails exactly when no slot in use has the name, and on failure changes nothing; on success it frees one slot in use with the name, changes nothing else in the slots, and adds one to `free_pipes` |
| PipeTable.RemoveLiveFreesFirstLive | fs/pipe.c:164-167 | a successful intended remove frees the lowest slot in use with the name, keeps its other fields and every other slot, and adds one to `free_pipes` |
| PipeTable.RemoveLiveConsistent | fs/pipe.c:165-167 | the intended remove keeps the counter invariant for every table and every name |
| PipeTable.LongNameCreatedTwice | fs/pipe.c:130-146 | as written, a name too long for its slot can be created twice, giving two slots in use with one stored name |
| PipeTable.CreateCheckedOp | fs/pipe.c:130-146 | the intended create fails exactly when a slot in use holds the name as it would be stored, or no slot is free, and on failure changes nothing; on success it occupies one free slot as `pipe_create` writes it, changes no other slot, and drops `free_pipes` by one |
| PipeTable.CreateCheckedSucceeds | fs/pipe.c:130-152 | a successful intended create, for a name of any length, fills the lowest free slot with the stored name, size, `PIPE_OCCUPIED`, offset 0 and both semaphores, keeps every other slot, drops `free_pipes` by one, and no slot in use held the stored name before |
| PipeTable.CreateCheckedNamesOrdered | fs/pipe.c:130-146 | the intended create keeps names in use unique for names of any length |
| PipeTable.CreateCheckedAgrees | fs/pipe.c:130-146 | for names that fit, the intended create and the create as written agree |
| PipeTable.WriteFinishRevivesRemoved | fs/pipe.c:274 | a writer ending on a removed slot makes it in use again without touching `free_pipes`, which breaks the counter invariant |
| PipeTable.WriteFinishCheckedConsistent | fs/pipe.c:274 | the intended epilogue keeps the counter invariant |
| PipeFileSystem.PipeFs.constructor | fs/pipe.c:34-85 | initialisation gives every slot `PIPE_FREE` with an empty name, sets `free_pipes = CONFIG_MAX_PIPES` and satisfies the counter invariant |
| PipeFileSystem.PipeFs.Open | fs/pipe.c:96-111 | the in-place scan returns what `OpenOp` specifies and changes nothing |
| PipeFileSystem.PipeFs.Close | fs/pipe.c:113-118 | close always returns `VFS_OK` and changes nothing |
| PipeFileSystem.PipeFs.Create | fs/pipe.c:120-155 | the in-place scan and slot update leave the result and table `CreateOp` specifies; slots keep their shape and the counter invariant is kept |
| PipeFileSystem.PipeFs.Remove | fs/pipe.c:157-176 | the in-place scan and update leave the result and table `RemoveOp` specifies |
| PipeFileSystem.PipeFs.GetFree | fs/pipe.c:299-308 | returns `free_pipes`, which under the counter invariant is the number of free slots |
| PipeFileSystem.PipeFs.FileCount | fs/pipe.c:310-321 | returns the table size less `free_pipes`, which under the counter invariant is the number of slots in use |
| PipeFileSystem.PipeFs.File | fs/pipe.c:323-343 | returns what `FileOp` specifies; a listed name is exactly the slot's name |
| PipeFileSystem.PipeFs.ReadDispatch | fs/pipe.c:188-237 | updates only the slot's state, as `ReadStep` gives it; returns `ReadStep`'s action and keeps the counter invariant |
| PipeFileSystem.PipeFs.WriteDispatch | fs/pipe.c:253-288 | updates only the slot's state and size, as `WriteStep` gives them; returns `WriteStep`'s action and keeps the counter invariant |

## Left out

- The blocking copy loops of `pipe_read` and `pipe_write` (fs/pipe.c:199-225, 264-273) are not modelled. These are the `memcopy` of bytes, `semaphore_P`/`semaphore_V` on `read_sem`/`write_sem`, and the sleep queue and `thread_switch`. How readers and writers interleave there is a concurrency question. The arithmetic inside the loops is also not consistent with itself: `offset` is set to the chunk rather than advanced (fs/pipe.c:213); the writer always copies a whole buffer (fs/pipe.c:267). (`bytes_remaining` drops by the room in the buffer at fs/pipe.c:223, but on every path that reaches that line the chunk is the room, so the two coincide.) So the byte stream round trip is not stated. Only the dispatch before each loop, the chunk size and return value, and the write epilogue are modelled.
- The table lock `pfs->lock` and the interrupt masking are not modelled. Each method is one atomic step. Two early returns never release the lock: the `PIPE_FREE` case of `pipe_read` (fs/pipe.c:192) and the free-slot case of `pipe_file` (fs/pipe.c:336). A reader whose copy loop ends on `PIPE_INUSE` turning false `break`s (fs/pipe.c:226) and then releases the lock at fs/pipe.c:241, although it already released it at fs/pipe.c:198. The model shows none of this. `pipe_write` reads the state outside the lock (fs/pipe.c:254); the model does not show this either.
- PipeTable.InitialTable: `pipe_init` (fs/pipe.c:34-85) never writes `pipes[]`. The model, and with it PipeFileSystem.PipeFs.constructor, assumes the page from `pagepool_get_phys_page` (fs/pipe.c:49) is zero-filled, so every slot starts `PIPE_FREE` with an empty name. fs/pipe.c does not ensure this, and the allocator is not part of this model. On a page holding old data a slot can start in any state with any name, and `free_pipes = CONFIG_MAX_PIPES` need not be the number of free slots.
- PipeProtocol.OneWriterCopies: covers only a second writer that reads the state after the first one's update at fs/pipe.c:260. `pipe_write` reads the state at fs/pipe.c:254 without the lock and takes the lock only inside the `PIPE_LISTENING` arm (fs/pipe.c:258-261), without checking the state again. Two writers that both read `PIPE_LISTENING` before either writes `PIPE_STREAMING` both pass that arm. The second overwrites `size` with its own `datasize`, and both enter the copy loop at fs/pipe.c:264. The model makes each dispatch one atomic step, so it does not show this.
- The wake-ups are not modelled: `sleepq_wake_all` on removal, and `sleepq_wake` in the dispatch. The actions only name them. A woken caller that goes back to the dispatch sees `PIPE_FREE` and fails, unless the slot was revived (fs/pipe.c:213-216, 274) or re-created (fs/pipe.c:136-148) before it runs; a woken reader that then finds `PIPE_OCCUPIED` sets `PIPE_LISTENING` and sleeps again (fs/pipe.c:227-230). A reader woken at `semaphore_P` (fs/pipe.c:200) copies one chunk from the buffer without looking at the state. If that chunk completes its request, it sets `PIPE_STREAMING` or `PIPE_OCCUPIED` at fs/pipe.c:213-216 and returns a count, which revives a removed slot without a create, like the writer's epilogue at fs/pipe.c:274 (see Findings). Otherwise the loop test at fs/pipe.c:199 sends it back to the dispatch through fs/pipe.c:226 and 239. The copy loops are not modelled, so neither path is shown.
- `pipe_init`'s page allocation, its semaphore creation and their failure paths are not modelled, nor are the volume name and the function-pointer wiring. Only "every slot free, `free_pipes = CONFIG_MAX_PIPES`" is kept. `pipe_unmount`, which always returns `VFS_OK`, is not modelled.
- The semaphores that `pipe_create` obtains from `semaphore_create(0)` are parameters. The source never checks them for NULL.
- The scans in fs/pipe.c:103, 130 and 164 run to `i <= CONFIG_MAX_PIPES`, so they read one slot past the array. That read has no defined meaning. The model scans `[0, CONFIG_MAX_PIPES)`. The consequences are listed below.
- PipeTable.CreateOp: fails on a full table only because the model's scan is bounded. In the code, when every slot is in use and the memory after the array reads as state 0, `pid` becomes `CONFIG_MAX_PIPES` (fs/pipe.c:136-137). Lines 146-152 then write the record past `pipes[]`, over `free_pipes`, which follows the array in `pipefs_t` (fs/pipe.c:22-23), and return `VFS_OK` instead of the `VFS_ERROR` of fs/pipe.c:140-142.
- PipeFileSystem.PipeFs.Create: proved equal to `CreateOp`, so it has the same bounded scan and returns `Error` on a full table where the code can write past the array.
- PipeTable.OpenOp: never returns `CONFIG_MAX_PIPES`. The code returns it when the bytes past the array happen to hold the name (fs/pipe.c:103-106).
- PipeTable.RemoveOp: never writes past the array. The code can match the bytes past the array and write `PIPE_FREE` and `free_pipes + 1` there (fs/pipe.c:165-167).
- PipeFileSystem.PipeFs.ReadDispatch: `requires fileid < pipes.Length` leaves out the handle `CONFIG_MAX_PIPES` that `pipe_open` can return. The code would dispatch on the bytes past the array.
- PipeFileSystem.PipeFs.WriteDispatch: the same bound on `fileid`, for the same reason.
- Integers are unbounded. `free_pipes`, `size` and `offset` are C `int` (fs/pipe.c:23, fs/pipe.h:25-26). The modelled operations set `size` only to an `int` argument (`pipe_create`'s `size`, `pipe_write`'s `datasize`) and `offset` only to 0, so neither leaves the range; `free_pipes` can: each remove of a stale name adds one at fs/pipe.c:167 with no bound (see Findings), so in the code it would eventually leave the `int` range, while the model's `freePipes` keeps growing.
- PipeFileSystem.PipeFs.File: the index is a `nat`. The source does not reject a negative `idx` and would read before the array.
- The `write_asid` and `write_return` fields of `pipe_t` are not modelled. `fs/pipe.c` never uses them.
- Names are sequences of characters without their terminating NUL. `stringcmp` is modelled as equality. `lib/libc.c` is not part of this model. `stringcopy(dst, src, n)` is taken to keep at most `n - 1` characters and a terminator.
- `fs/vfs.h` is not part of this model, so the numeric values of `VFS_OK`, `VFS_ERROR` and `VFS_NOT_FOUND` are not given. They are the constructors of `Status` and `OpenResult`.
- `tests/pipes.c` runs several processes at once and has no sequential result to check against. `tests/deadline.c` tests the scheduler, not pipes.

## Findings

The class `PipeFs` follows the code as written. Each corrected definition is a `PipeTable` or `PipeProtocol` function with its intended property proved.

| source | as written | input that shows it | evidently intended | confidence | as-written member | corrected member |
|---|---|---|---|---|---|---|
| fs/pipe.c:164-167 | remove matches a slot by name whatever its state and always increments `free_pipes` | a fresh table, where every slot's name is empty, then `pipe_remove("")`; or, on any well-kept table, removing a name in use twice | only a slot in use is removed, matching create's duplicate check, so the counter stays exact | high; not executed | PipeTable.RemoveOnFreshTable | PipeTable.RemoveLiveConsistent |
| fs/pipe.c:130-146 | the duplicate check compares the full requested name with the stored, truncated names | `CONFIG_PIPE_MAX_NAME = 4`, then `pipe_create("abcd")` twice | names in use stay unique whatever their length | medium (assumes `stringcopy` keeps at most `n - 1` characters); not executed | PipeTable.LongNameCreatedTwice | PipeTable.CreateCheckedNamesOrdered |
| fs/pipe.c:274 | after its copy loop the writer sets `PIPE_OCCUPIED` unconditionally; the reader's copy loop likewise sets `PIPE_STREAMING` or `PIPE_OCCUPIED` at fs/pipe.c:213-216 without looking at the state again (that path is not modelled) | `pipe_remove` of the pipe while its writer waits in the copy loop | a removed pipe stays free, so `free_pipes` stays exact | high; not executed | PipeTable.WriteFinishRevivesRemoved | PipeTable.WriteFinishCheckedConsistent |
