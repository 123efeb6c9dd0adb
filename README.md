# Thread extensions of the NPTL runtime, modelled in Dafny

This project models the sequential logic of `nptl/pthread_fun_ext.c`. That file adds three services to the thread library:

- **Private store.** Each thread descriptor keeps a list of `{key, value}` nodes in `pd->pri_var`. The key is the address of the caller's `int` variable. `pthread_addvar`, `pthread_delvar`, `pthread_setvar` and `pthread_getvar` work on the list. They return `ESRCH` for an invalid handle, `EINVAL` for a NULL or missing key, and -1 when the list already holds `THREAD_PRIVATE_VAR_SIZE` nodes.
- **Run lock.** `pthread_lock` and `pthread_unlock` keep a per-thread recursion counter, `pthread_lock_counter`. The first lock walks the thread registry (`/var/<pid>_tid_cache`). It pins every listed thread to CPU 0 under `SCHED_RR`. The caller gets one priority step above every other thread, so the others starve while the caller runs. The last unlock walks the registry again. It puts back the policy and priority stored in each descriptor's `old_schepolicy` and `old_priority` fields.
- **Parsers behind name resolution and the state queries.** `read_line` copies one bounded, NUL-terminated line. `comm_to_tid` picks the first task whose `comm` is a prefix of the wanted name. `pthread_is_ready` and `pthread_is_suspend` read the state letter that follows the first `)` of a task's `stat` line.

The modules are:

- `PrivateStore` (`private_store.dfy`): the class `PrivateVars`. It holds the list as a `seq<Entry>` and keeps the invariant that keys are non-NULL and unique and that the length is at most `capacity`. Each of its four methods walks the list in a loop, like the C code. Each is proved against a specification function (`AddVarResult`, `DelVarResult`, `SetVarResult`, `GetVarResult`), and lemmas state the laws those functions obey.
- `RunLock` (`run_lock.dfy`): the class `Process`. It holds the calling thread's counter and the registry's scheduling records. `Lock` and `Unlock` are proved against the transition functions `LockStep` and `UnlockStep`. The walks are specified declaratively by `PinAll` and `RestoreAll`, as "everything before the first refusal is done, nothing after it is touched".
- `ProcParse` (`proc_parse.dfy`): `ReadLine` fills an `array<byte>`. `CommToTid` and `StateIs` scan with loops. All three are proved against the functions `Line`, `ResolvedTid` and `StateLetter`.
- `Errno` and `Wrappers`: the error numbers (Linux values) and an `Option` type.

Inputs that come from the system are parameters:

- A file descriptor is the sequence of bytes it would yield.
- A directory is a sequence of entries, or `None` when it cannot be opened.
- The descriptor validity test `INVALID_TD_P` is a boolean (`live`, `handleValid`).
- The answers of `sched_setaffinity` and `pthread_setschedparam` come from an oracle, `Syscalls`. It gives, by position in the walk, whether each call succeeds. So every scheduling update may fail.

## Model

| member | source | states |
|---|---|---|
| `PrivateStore.KeyIndex` | nptl/pthread_fun_ext.c:646-653 | the scan finds the first node holding the key, and reports none exactly when no node holds it |
| `PrivateStore.PrivateVars.constructor` | nptl/pthread_fun_ext.c:637 | a descriptor starts with an empty list (`pri_var == NULL`) that satisfies the store invariant |
| `PrivateStore.PrivateVars.AddVar` | nptl/pthread_fun_ext.c:623-665 | ESRCH before EINVAL; an empty list gets its first node; an existing key is overwritten in place; a new key is appended while fewer than `capacity` nodes exist, else -1 with the list unchanged; keys stay unique and the length stays within capacity |
| `PrivateStore.PrivateVars.DelVar` | nptl/pthread_fun_ext.c:676-714 | ESRCH; EINVAL for a NULL key, an empty list or an absent key, with the list unchanged; otherwise the node is unlinked; the test at line 710 is shown to always give EINVAL |
| `PrivateStore.PrivateVars.SetVar` | nptl/pthread_fun_ext.c:725-748 | ESRCH; EINVAL for a NULL or absent key; otherwise only the matching node's value changes; the invariant is kept |
| `PrivateStore.PrivateVars.GetVar` | nptl/pthread_fun_ext.c:759-782 | changes nothing; returns the first matching node's value with 0, or ESRCH/EINVAL with `*value` left as it was |
| `PrivateStore.AddVarKeepsInvariant` | nptl/pthread_fun_ext.c:637-661 | after any add, keys are non-NULL and unique and the length is at most `THREAD_PRIVATE_VAR_SIZE` |
| `PrivateStore.DelVarKeepsInvariant` | nptl/pthread_fun_ext.c:689-707 | after any delete, keys are non-NULL and unique and the length is within capacity |
| `PrivateStore.SetVarKeepsInvariant` | nptl/pthread_fun_ext.c:738-744 | after any set, keys are non-NULL and unique and the length is within capacity |
| `PrivateStore.AddVarOverwritesExisting` | nptl/pthread_fun_ext.c:646-651 | an existing key: return 0, same length, that node now holds the new value, every other node is unchanged |
| `PrivateStore.AddVarNewKey` | nptl/pthread_fun_ext.c:654-661 | a new key is appended at the tail when the list is below capacity; at capacity the call returns -1 and the list is unchanged |
| `PrivateStore.AddAddGet` | nptl/pthread_fun_ext.c:646-651 | two adds of one key, then a get, read the second value, and the second add leaves the length unchanged |
| `PrivateStore.DelVarRemovesExactly` | nptl/pthread_fun_ext.c:689-705 | a delete removes exactly the node with the key (head, middle or tail), keeps the other nodes in order, and leaves the key absent |
| `PrivateStore.DelVarTwiceFails` | nptl/pthread_fun_ext.c:685-711 | after a successful delete, a second delete of the key returns EINVAL and changes nothing, and a get returns EINVAL |
| `PrivateStore.DelVarFailures` | nptl/pthread_fun_ext.c:685-686 | a NULL key, an empty list or an absent key gives EINVAL with the list unchanged |
| `PrivateStore.SetVarChangesOnlyMatch` | nptl/pthread_fun_ext.c:738-747 | set succeeds if and only if the key is present; keys and length never change (no insert); only the matching node's value differs; a failure is EINVAL with the list unchanged |
| `PrivateStore.SetThenGet` | nptl/pthread_fun_ext.c:738-777 | a get after a successful set reads the value that was set |
| `PrivateStore.InvalidHandleFirst` | nptl/pthread_fun_ext.c:630-634 | with an invalid handle all four calls return ESRCH and change nothing, even for a NULL key |
| `RunLock.FirstPinRefusal` | nptl/pthread_fun_ext.c:299-310 | finds the first registry position where the lock's walk stops (stale handle, refused affinity or refused policy), and reports none exactly when no position stops it |
| `RunLock.FirstRestoreRefusal` | nptl/pthread_fun_ext.c:362-363 | finds the first position where the unlock's `pthread_setschedparam` fails, and reports none exactly when all succeed |
| `RunLock.Process.constructor` | nptl/pthread_fun_ext.c:274-276 | a thread starts with counter 0 and the registry as given |
| `RunLock.Process.Lock` | nptl/pthread_fun_ext.c:265-322 | `LockStep`: counter > 0 gives ++ and 0 with no walk, or -1 at `UINT_MAX`; counter 0 gives counter 1 before the walk, and then the pinning walk, which aborts with -1 at the first refusal and rolls nothing back |
| `RunLock.Process.Unlock` | nptl/pthread_fun_ext.c:333-375 | `UnlockStep`: counter > 1 gives -- and 0; counter 1 gives 0 and then the restoring walk; counter 0 gives -1 with nothing changed |
| `RunLock.CounterStaysBounded` | nptl/pthread_fun_ext.c:276-279 | the counter never exceeds `UINT_MAX`; at `UINT_MAX` a lock returns -1 and changes nothing |
| `RunLock.NestedLockTouchesNothing` | nptl/pthread_fun_ext.c:276-280 | a nested lock increments the counter, returns 0 and touches no thread |
| `RunLock.UnmatchedUnlockFails` | nptl/pthread_fun_ext.c:347-349 | unlock with counter 0 returns -1 and changes nothing |
| `RunLock.FailedFirstLockStillCounts` | nptl/pthread_fun_ext.c:281-283 | the first lock sets the counter to 1 even when its walk fails, so the next lock returns 0 with no walk |
| `RunLock.FirstLockPinsEveryone` | nptl/pthread_fun_ext.c:287-310 | after a successful first lock every registry thread is on CPU 0 under SCHED_RR; the caller has min+1 and every other thread min, so the caller outranks each of them |
| `RunLock.FirstLockFailure` | nptl/pthread_fun_ext.c:299-321 | the first lock fails if and only if some entry is stale or refuses an update; entries before the first such one are pinned and those after it are untouched |
| `RunLock.LockKeepsStoredState` | nptl/pthread_fun_ext.c:295-311 | the lock's walk never writes `old_schepolicy`/`old_priority` |
| `RunLock.UnlockRestoresWithoutCheck` | nptl/pthread_fun_ext.c:356-365 | a successful last unlock sets every record to its stored policy and priority and leaves its CPU affinity as it was; `pthread_unlock` itself tests no handle's validity |
| `RunLock.LockUnlockRoundTrip` | nptl/pthread_fun_ext.c:287-365 | lock then unlock, both successful: every thread ends on CPU 0 with its stored policy and priority; it ends with its pre-lock policy and priority if and only if the stored fields already held them |
| `RunLock.NestedLocks` | nptl/pthread_fun_ext.c:276-280 | m nested locks on a held lock of depth c give depth c+m and touch no thread |
| `RunLock.NestedUnlocks` | nptl/pthread_fun_ext.c:342-344 | m unlocks from depth c+m (c >= 1) give depth c and touch no thread |
| `RunLock.LocksAndUnlocksBalance` | nptl/pthread_fun_ext.c:276-349 | n locks from 0 leave the counter at n, even if the first walk failed, and n unlocks bring it back to 0 |
| `ProcParse.LineEnd` | nptl/pthread_fun_ext.c:155 | the position of the first newline or NUL, or the input length if there is none |
| `ProcParse.StrLen` | nptl/pthread_fun_ext.c:121 | `strlen`: the position of the first NUL, or the length if there is none |
| `ProcParse.ReadLine` | nptl/pthread_fun_ext.c:143-168 | returns 0; the buffer holds the input before its first newline, NUL or end, cut to `size-1` bytes, followed only by NULs |
| `ProcParse.LineIsBoundedPrefix` | nptl/pthread_fun_ext.c:154-164 | the kept line is a prefix of the input, holds no newline or NUL, has at most `size-1` bytes, and is the whole line when it fits |
| `ProcParse.LineRoundTrip` | nptl/pthread_fun_ext.c:154-161 | a line shorter than the buffer comes back whole, whether it ends with a newline or at the end of input |
| `ProcParse.ReadLineBufferTerminated` | nptl/pthread_fun_ext.c:156-164 | the buffer is NUL-terminated inside its size, and its `strlen` is the line length |
| `ProcParse.StrNEqFirstBytes` | nptl/pthread_fun_ext.c:121 | `strncmp(a, b, n)` depends only on the first n bytes of b |
| `ProcParse.StrNEqIsPrefix` | nptl/pthread_fun_ext.c:121 | on NUL-free strings, `strncmp(name, comm, strlen(comm)) == 0` holds if and only if comm is a prefix of name |
| `ProcParse.FirstMatch` | nptl/pthread_fun_ext.c:112-124 | finds the first task entry that is readable and whose comm passes the prefix test, and reports none exactly when no entry does |
| `ProcParse.CommToTid` | nptl/pthread_fun_ext.c:95-130 | -1 for a NULL name or an unopenable directory; otherwise the first readable matching task's id; with no match, 0 if any comm was read, else -1 |
| `ProcParse.MatchIsCommPrefix` | nptl/pthread_fun_ext.c:115-121 | a task matches if and only if its comm file opens and the comm read from it is a prefix of the name (so an empty comm matches every name) |
| `ProcParse.UnmatchedNameGivesZero` | nptl/pthread_fun_ext.c:117-129 | as written: no match among entries of which one was readable gives 0 |
| `ProcParse.UnmatchedNameExample` | nptl/pthread_fun_ext.c:117-129 | as written: name "xyz" with one task 7 named "abc" resolves to 0 |
| `ProcParse.IntendedTidFailsIffNoMatch` | nptl/pthread_fun_ext.c:70-72 | corrected: the result is -1 if and only if no readable entry's comm is a prefix of the name; otherwise it is the first such entry's id |
| `ProcParse.ParenIndex` | nptl/pthread_fun_ext.c:198-200 | the first `)` before the string's NUL, and none exactly when no `)` comes before it |
| `ProcParse.StateIs` | nptl/pthread_fun_ext.c:198-208 | true if and only if the string has a `)` before its NUL and the byte two past the first one is the given letter |
| `ProcParse.IsReady` | nptl/pthread_fun_ext.c:178-209 | invalid handle: FALSE with errno set to ESRCH; `open` fails: FALSE with the errno `open` set; `read` fails: FALSE with the errno `read` set; otherwise errno is kept, and the answer is TRUE if and only if the state letter of the 64-byte stat buffer is `R` |
| `ProcParse.ZeroBufferIsNeither` | nptl/pthread_fun_ext.c:195-208 | after a failed `read` the zero-filled stat buffer has no state letter, so both queries answer FALSE |
| `ProcParse.IsSuspend` | nptl/pthread_fun_ext.c:220-251 | the same four cases as `IsReady`, with `S` |
| `ProcParse.StatLineGivesState` | nptl/pthread_fun_ext.c:198-206 | a stat line `<pid> (<comm>) <state> ...` with no `)` in the comm, whose letter falls in the buffer, reads back as its state letter; it is never both R and S |
| `ProcParse.NoParenIsNeither` | nptl/pthread_fun_ext.c:208 | with no `)` before the NUL, there is no state letter, so the answer is FALSE |

## Findings

| source | as written | input that shows it | evidently intended | confidence | as-written member | corrected member |
|---|---|---|---|---|---|---|
| nptl/pthread_fun_ext.c:117 | `ret` takes `read_line`'s 0, so a name that matches no task gives 0 once any comm file was read | name "xyz", one task with id 7 and comm "abc": result 0 | -1, which `pthread_getid` turns into ESRCH at line 71 | high that 0 is unintended, not executed | `ProcParse.UnmatchedNameExample` | `ProcParse.IntendedTidFailsIffNoMatch` |

`ProcParse.CommToTid` and `ProcParse.ResolvedTid` keep the behaviour as written. `ProcParse.IntendedTid` is the corrected definition. In the repository the wrong 0 is masked: `pthread_getid` then searches the registry for task id 0, finds none and still returns ESRCH at line 92. The zero is not a corner case: procfs lists `..` in the task directory, its `comm` (the process's own) opens, and `atoi("..")` is 0, so on a real system some `comm` is always read, and no match always gives 0. The same entry makes any name that starts with the process name resolve to 0, under the corrected rule as well.

## Behaviour worth knowing

- `pthread_lock` saves nothing before it changes a thread: this file never writes `old_schepolicy` or `old_priority` (its walk at lines 295-311 only reads the registry and calls `sched_setaffinity` and `pthread_setschedparam`), and `pthread_unlock` restores whatever those fields hold (lines 361-362). `RunLock.LockUnlockRoundTrip` states what this gives.
- `pthread_lock` raises the counter to 1 before the walk and keeps it there when the walk fails (lines 282, 318-321).
- The unlock's walk checks no handle's validity and does not restore the CPU affinity (lines 356-365).

## Left out

- Node allocation and linking: the `pri_var` list is a sequence. `malloc` is taken to succeed (lines 638, 658), and `free` and node addresses are not modelled.
- `lll_lock`/`lll_unlock` on `pri_var_lock` and `__pthread_mutex_lock` on the run-lock mutex: these are concurrency, so each call is modelled as atomic.
- Directory and file I/O (`opendir`, `readdir`, `open`, `read`, `close`) and `atol`/`atoi` of entry names. Directories are input sequences that already hold only the entries the `d_type` filter keeps, in `readdir` order. procfs lists `.` and `..` as `DT_DIR` too, so they belong in that sequence: `..`'s `comm` is `/proc/<pid>/comm`, which opens, and its id is `atoi("..") = 0`. In practice `comm_to_tid` therefore always sees an entry `TaskEntry(0, Some(<process comm>))`: it returns 0 for any name that starts with the process name, and the line-117 zero is the usual no-match result.
- `sched_setaffinity`, `pthread_setschedparam` and `__sched_get_priority_min`: these are foreign calls. Their outcomes come from `Syscalls`; the minimum `SCHED_RR` priority is Linux's 1.
- `PrivateStore.PrivateVars.constructor`: `THREAD_PRIVATE_VAR_SIZE` is not part of this model. It is the `capacity` parameter, required to be at least 1. With 0, the empty-list path at line 637 adds a node, and the `i == THREAD_PRIVATE_VAR_SIZE` test never fires after that.
- `ProcParse.ReadLine`: `size` is the buffer length and at least 1, as every caller passes `sizeof` of a 64-byte array. With 0, line 164 would write `buf[-1]`. The `buf == NULL` test at line 151 comes after `memset` and is not modelled.
- `ProcParse.StateIs`: a byte past the end of the 64-byte stat buffer reads as NUL. The C loop would read on past the array when the buffer holds no NUL.
- `ProcParse.IsReady`: a `read` that returns fewer bytes than the file holds, up to 64, is not modelled; the buffer is the first 64 bytes of the file. An errno set by a failing `close` is not modelled either.
- `ProcParse.IsSuspend`: the same two limits as `ProcParse.IsReady`.
- `RunLock.LockUnlockRoundTrip`: the model assumes that no call in the lock's walk writes `old_schepolicy` or `old_priority`, so `pthread_setschedparam` changes only the policy and priority. These fields belong to `struct pthread`, and where they are filled is outside this file; if the `pthread_setschedparam` the lock calls (line 309) saved the old values there, a lock then unlock would give back the pre-lock policy and priority, which the lemma's "if and only if" does not describe.
- `RunLock.UnlockRestoresWithoutCheck`: `pthread_setschedparam` runs its own handle check in glibc and refuses a stale handle with ESRCH. The model leaves that to `Syscalls.schedOk`, which does not look at `handleValid`, so the lemma does not say that a stale record stops the real walk.
- `pthread_getid` and `pthread_t_to_tid`: the registry search that turns a task id into a handle is directory I/O. The handle check appears as `handleValid`.
- `pthread_cancelforce`: an atomic compare-and-swap loop followed by `pthread_cancel`.
- `printf_stack_info`, `pthread_showstack` and `tid_to_comm`: they scan stack memory and print the result.
- `pthread_attr_getname`/`pthread_attr_setname` (`snprintf` wrappers) and `pthread_getschedprio`/`pthread_verifyid` (wrappers over the handle check and `pthread_getschedparam`).
