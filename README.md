# control2310: the plane registry and its command protocol

`control2310` is a small TCP server. Clients send it lines of text. A line
that is exactly `log` asks for every registered plane ID, one per line, in
`strcmp` order, followed by a line holding only `.`. Any other line registers
itself as a plane ID. After the process receives SIGHUP, every line is
answered as if it were `log` and nothing more is registered. At start-up the
server checks its arguments, may announce `!<id>:<port>` to a "mapper"
service, and prints its listening port.

This project models that core in Dafny:

- `strings.dfy` (module `Strings`): plane IDs as `seq<char>`, the sign of
  `strcmp` (`StrCmp`), the order `LessEq` it induces, what "sorted" means,
  insertion into a sorted sequence, and the fact that a sorted sequence is
  fixed by its multiset of entries.
- `registry.dfy` (module `Registry`): the `ControlData` record as a value
  (`Record`: the stored IDs in index order and the capacity), its start
  value, and the effect of `handle_add` (`AddPlane`), with its capacity rule:
  grow by 10 slots when `numberOfPlanes + 2 > capacity`.
- `dispatch.dfy` (module `Dispatch`): `handle_command` as a step
  from (line, hang-up flag, registry) to (registry, text written back); runs
  of many such steps interleaved with the hang-up signal; and the text of a
  `log` answer, with a proof that a client splitting it into lines gets back
  the IDs and the sentinel.
- `control.dfy` (module `Control`): the registry as the server holds it. The
  class `ControlData` has the fields `capacity`, `numberOfPlanes` and an
  array `planes`. `LexicographicOrder` is the in-place exchange sort with
  both of its loops. `HandleAdd`, `HandleCommand` and `WriteLog` are proved
  against the functions of `Registry` and `Dispatch`.
- `startup.dfy` (module `Startup`): the status codes and messages of
  `handle_error_message`, the order of `main`'s checks, and the
  announcement line, with a parser for it and round-trip proofs.

Environment inputs are parameters:

- `growthSucceeds`: whether `realloc` succeeded;
- `hangup` / `sighupHappen`: the SIGHUP flag;
- `validId` / `validPort`: `is_valid_id` and `is_valid_port`;
- `mapperReachable`: whether the connection to the mapper was made;
- `controlPort`: the decimal text of the listening port.

Extra arguments after the mapper port are ignored, as in the code: only fewer
than three arguments is an error. The unlocked read on the `log` path is not
modelled; every command is one atomic step (see "Left out").

## Model

| member | source | states |
|---|---|---|
| `Strings.StrCmp` | control2310.c:96 | the sign of `strcmp` is -1, 0 or 1; `StrCmpZero` and `StrCmpNegativeIff` characterise when each occurs |
| `Strings.StrCmpZero` | control2310.c:96 | the `strcmp` sign is 0 exactly when the two IDs are equal |
| `Strings.StrCmpAntisymmetric` | control2310.c:96 | swapping the two arguments negates the `strcmp` sign |
| `Strings.LessEqTransitive` | control2310.c:96 | the order induced by `strcmp` is transitive |
| `Strings.StrCmpNegativeIff` | control2310.c:96 | `strcmp` is negative exactly when the first ID is a proper prefix of the second or is smaller at the first difference; both directions |
| `Strings.InsertSorted` | control2310.c:130-131 | storing one ID and re-sorting gives one more entry: the old multiset plus that ID, duplicates kept |
| `Strings.InsertSortedKeepsSorted` | control2310.c:130-131 | inserting into a sorted sequence keeps it sorted |
| `Strings.SortedUnique` | control2310.c:91-103 | two sorted sequences with the same multiset of IDs are equal, so the result of any correct sort is determined |
| `Dispatch.Start` | control2310.c:14 | the server starts with the empty registry (10 slots) meeting the invariant, the hang-up flag clear and nothing written |
| `Registry.Empty` | control2310.c:229-234 | the start registry has no IDs and 10 slots, and meets the invariant |
| `Registry.NeedsGrowth` | control2310.c:120 | on a registry meeting the invariant, the growth test fires exactly when only one free slot is left |
| `Registry.AddPlane` | control2310.c:105-132 | capacity changes only by exactly +10 and only when `numberOfPlanes + 2 > capacity`; if growth is needed and fails, nothing changes; otherwise the count rises by one and the multiset gains one copy of the ID |
| `Registry.AddPlaneKeepsInv` | control2310.c:120-131 | every add keeps `numberOfPlanes + 1 <= capacity` and the stored IDs sorted |
| `Dispatch.Lines` | control2310.c:138-141 | the listing has at least one character per ID and, when any ID is stored, ends with a newline |
| `Dispatch.LogText` | control2310.c:136-144 | the answer to `log` is at least two characters longer than the number of IDs and ends with the sentinel line `.` and a newline |
| `Dispatch.LinesSnoc` | control2310.c:138-141 | writing one more ID extends the listing by that ID and a newline |
| `Dispatch.SplitLogText` | control2310.c:136-144 | a `log` answer, split at newlines, is exactly the stored IDs in index order followed by `.`, provided no ID holds a newline |
| `Dispatch.Step` | control2310.c:134-149 | `log` or a set hang-up flag: registry unchanged and the full listing written; any other line: exactly one add and nothing written; something is written exactly in the first case |
| `Dispatch.Apply` | control2310.c:15-17 | the signal handler only ever sets the flag, so a set flag stays set; the registry changes only on a non-`log` line read while the flag is clear |
| `Dispatch.Run` | control2310.c:162-167 | over any sequence of lines read and signals, a set hang-up flag stays set |
| `Dispatch.TranscriptOnlyGrows` | control2310.c:138-143 | what has been written back is never taken back: the transcript before a run is a prefix of the one after it |
| `Dispatch.RunKeepsInv` | control2310.c:120-131 | over any run of commands and signals, the invariant holds, capacity never shrinks and changes only in multiples of 10, and the hang-up flag is never cleared |
| `Dispatch.HangupFreezesRegistry` | control2310.c:136-144 | once the hang-up flag is set, no line changes the registry and every line is answered with the same listing |
| `Dispatch.AddsAreKept` | control2310.c:146-148 | before the hang-up, a run of successful adds leaves the old IDs plus every added line, sorted, and writes nothing |
| `Dispatch.InterleavingIrrelevant` | control2310.c:146-148 | any two orders of the same successful adds give the same registry contents |
| `Dispatch.LogTwice` | control2310.c:136-144 | two `log` commands in a row write the same answer twice and change nothing |
| `Dispatch.AddAfterHangup` | control2310.c:136 | after the hang-up, a non-`log` line gets the listing and stores nothing |
| `Dispatch.AddTwoThenLog` | control2310.c:105-149 | from the start state, adding `b1` then `a1` and then sending `log` writes `a1`, `b1`, `.` |
| `Control.LexicographicOrder` | control2310.c:91-103 | after the exchange sort, `planes[0..length)` is in `strcmp` order and is a permutation of what it was; entries at `length` and beyond are untouched |
| `Control.ExchangeKeepsOrder` | control2310.c:96-99 | swapping an out-of-order pair keeps both loop invariants and the multiset |
| `Control.SortedAfterAppend` | control2310.c:130-131 | appending an ID and sorting gives the same sequence as inserting it in order |
| `Control.ControlData.constructor` | control2310.c:229-234 | a fresh record with 10 slots and no IDs |
| `Control.ControlData.HandleAdd` | control2310.c:105-132 | the new record is `AddPlane` of the old one; the record invariant is kept |
| `Control.ControlData.Grow` | control2310.c:120-129 | a successful reallocation adds 10 slots and keeps the stored IDs |
| `Control.ControlData.Store` | control2310.c:130-131 | the count rises by one and the stored prefix becomes the sorted insertion of the ID |
| `Control.ControlData.WriteLog` | control2310.c:137-143 | the text written is every stored ID and a newline, in index order, then `.` and a newline |
| `Control.ControlData.HandleCommand` | control2310.c:134-149 | the new record and the text written are those of `Step` |
| `Startup.Code` | control2310.c:37-43 | each status maps to an exit code of at most 4 |
| `Startup.CodeRoundTrip` | control2310.c:37-43 | each exit code identifies its status, and only `OK` has code 0 |
| `Startup.Message` | control2310.c:50-61 | only `OK` has an empty message, and no message contains a newline |
| `Startup.HandleErrorMessage` | control2310.c:45-67 | hands back its argument; writes nothing for `OK`; for any other status writes exactly one line: non-empty, ending in a newline, with no other newline before it |
| `Startup.MessagesDistinct` | control2310.c:50-61 | different failing statuses print different lines |
| `Startup.Announcement` | control2310.c:82 | the announcement starts with `!`, ends with a newline and is three characters longer than the ID and the port together |
| `Startup.AnnouncementRoundTrip` | control2310.c:82 | a reader that splits the body of `!<id>:<port>\n` at the first colon gets back the ID and the port, when the ID has no colon |
| `Startup.ParsedIsAnnouncement` | control2310.c:82 | every line that parses is the announcement of the ID and port read from it |
| `Startup.Launch` | control2310.c:188-227 | argument count is checked first (status 1), then both IDs (2), then the mapper port (3), then the mapper connection (4); each failure only when all earlier checks passed; serving prints the port and announces iff a mapper port was given |
| `Startup.LaunchServesIff` | control2310.c:188-227 | start-up reaches serving exactly when every check passes |

## Left out

- Sockets: `set_up`, `accept`, `getsockname`, `fdopen` and `fclose` are network I/O. Their outcomes are parameters or are not modelled.
- Threads and the semaphore: each `handle_command` is one atomic step, and the interleaving of connections is one sequence of events. The unlocked read on the `log` path is therefore not modelled. All answers go into one `transcript`, whereas the code writes each answer to the `writeFile` of the connection that asked; which connection receives a listing is not modelled.
- The SIGHUP handler and `sigaction`: the flag is a boolean input that a `Hangup` event sets. `read_line` receives `&sighupHappen`, and its body is not part of this model; it is assumed never to clear the flag, and `HangupFreezesRegistry` rests on that assumption.
- `read_line`, `is_valid_id`, `is_valid_port` and `number_to_string` are not part of this model. The line read is any `seq<char>`. The validity checks are arbitrary predicates. The port text is a parameter.
- The per-connection read loop of `handle_request` is covered only through the event sequence.
- Byte-level memory behaviour is not reproduced. This covers the one-byte-short `malloc` of the copied ID, the `strcpy` swap through an 80-byte buffer, the leak of the copy when `realloc` fails, and the `malloc(sizeof(controlData))` in `main`, which allocates the size of one pointer for a `MapperArgs` record whose three pointer fields are then written. An ID is a value and a swap exchanges array entries.
- The `length` loop and copy loop of `handle_add` are not modelled separately. With IDs as values they are the identity.
- 32-bit `int` overflow of `numberOfPlanes` and `capacity` is not modelled. Both are unbounded naturals.
- The `default` branch of `handle_error_message` cannot be reached, because `Error` has only its five values.
- IDs are character sequences without a terminating NUL. An ID containing `'\0'` cannot come from a C string, and `StrCmp` is not claimed to match `strcmp` on one.
- An ID equal to `.` cannot be told apart from the sentinel, so `SplitLogText` does not say where a listing ends when such an ID is stored. This is a limitation of the protocol.
