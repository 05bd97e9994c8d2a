# xv6 open-file layer, modelled in Dafny

This project models `xv6/file.c` of an xv6 (x86) kernel variant that adds
per-file I/O accounting. It covers:

- the global file table (`ftable.file`) as a sequence of slots, each with a
  kind (`FD_NONE`, `FD_PIPE`, `FD_INODE`), a reference count, readable and
  writable flags, pipe and inode handles, an offset and two byte counters;
- `filealloc`, `filedup` and `fileclose`, the last with its
  snapshot-reset-finalise sequence;
- `getfd`, the identity lookup of a file in the calling process's descriptor
  array, and the `strncmp`-based shell-name test;
- `update_bytes` (the accounting rule, with its descriptor-2 and shell
  exceptions) and `fetchiostats` (the reporting transform for descriptor 2);
- `filestat`, `fileread` and `filewrite`, including the chunking of inode
  writes into pieces that fit one log transaction.

Pointers are slot indices. The calling process (`myproc()`) is a `Proc`
value holding its name and descriptor array. Calls into the pipe, inode and
log code are returned as a `Call` log in the order they are made; a log
transaction (`begin_op` ... `end_op`) is the scoped call `Txn(body)`. What the
back-ends return is a parameter: a single reply for `piperead`, `readi` and
`pipewrite`, and a function of (inode, offset, length) for the repeated
`writei` calls. Kernel panics (`filedup`/`fileclose` on a slot with no
reference, a read or write on a file of another kind, a short `writei`) are
preconditions.

Files: `file_types.dfy` (data model), `descriptors.dfy` (`getfd`, shell
test), `accounting.dfy` (`update_bytes`, `fetchiostats`), `file_table.dfy`
(allocation and reference counting), `dispatch.dfy` (stat, read, write).

Two details of the accounting are modelled as the code has them. A read
charges the requested count `n` to `read_bytes`, not the count the back-end
delivered (xv6/file.c:153, 161). A pipe read or write is charged before the
pipe is called, so it is charged even when the pipe fails (xv6/file.c:153-154,
177-178).

## Model

| member | source | states |
|---|---|---|
| Descriptors.GetFd | xv6/file.c:44-57 | a non-negative result is an index reached by the scan (no null entry at or before it, at most 256) that holds the file, with no earlier entry holding it; -1 exactly when no reachable entry holds the file |
| Descriptors.GetFdFrom | xv6/file.c:48-56 | the scan from index i, given entries before i are neither null nor the file, finds the first reachable entry holding the file or -1 when there is none |
| Descriptors.ShellNameExact | xv6/file.c:63 | for a name with no embedded terminator, `strncmp(name, "sh", 16) == 0` holds exactly when the name is "sh" |
| Accounting.UpdateBytes | xv6/file.c:60-78 | only the two counters can change; nothing changes when the descriptor index is below 1, the caller is the shell, or m is neither 0 nor 1; otherwise read_bytes (m = 0) or write_bytes (m = 1) grows by 1 through descriptor 2 and by n otherwise, the other counter unchanged; counters never decrease for n >= 0 |
| Accounting.CDivBy4 | xv6/file.c:88 | C integer division by 4: the quotient is truncated toward zero, so four times it lies within 4 below a non-negative dividend and within 4 above a negative one |
| Accounting.FetchIoStats | xv6/file.c:80-90 | read_bytes is reported as stored; write_bytes as stored unless the descriptor index is 2, where 6 reports 0 and any other value reports its quarter rounded toward zero |
| Accounting.StderrWritesCountOne | xv6/file.c:70-76 | any sequence of writes through descriptor 2 by a non-shell process adds exactly one per write to write_bytes and leaves read_bytes alone |
| Accounting.ShellIsNeverCharged | xv6/file.c:62-77 | any sequence of reads and writes by the shell leaves the file unchanged |
| Accounting.CountersMonotone | xv6/file.c:72-77 | any sequence of transfers of non-negative size never decreases either counter |
| Accounting.StderrReportAfterWrites | xv6/file.c:61-90 | through descriptor 2, six one-byte writes on a zero counter report 0, five report 1, eight report 2 |
| FileTable.FirstFree | xv6/file.c:32-38 | the scan finds the lowest slot with reference count 0, or none exactly when every slot is in use |
| FileTable.FileAlloc | xv6/file.c:26-41 | returns the lowest-index slot with count 0 and sets its count to 1, changing no other slot or field; returns no slot, with the table unchanged, exactly when every slot has count > 0 |
| FileTable.FileDup | xv6/file.c:93-102 | on a slot with count >= 1, returns the same slot with its count one higher and every other field and slot unchanged |
| FileTable.FileClose | xv6/file.c:105-129 | on a slot with count >= 1, decrements the count; above 0 nothing else changes and no back-end is called; at 0 the slot becomes kind FD_NONE and exactly one finalisation runs on the pre-reset copy: pipeclose with its writable flag for a pipe, iput inside one log transaction for an inode, nothing otherwise |
| FileTable.OpsPreserveTableInv | xv6/file.c:26-129 | allocation, duplication and closing keep every free slot of kind FD_NONE |
| FileTable.DupThenCloseRestores | xv6/file.c:93-129 | filedup followed by fileclose on the same slot gives back the original table and calls no back-end |
| FileTable.CloseFinalisesOnce | xv6/file.c:105-129 | fewer closes than references call no back-end and only lower the count; exactly as many closes free the slot and run the kind's finalisation once, with the kind and handles the slot had before |
| FileTable.AllocInOrder | xv6/file.c:26-41 | when the first j slots are taken and the rest free, k allocations return slots j, j+1, ..., j+k-1 in order and leave exactly the first j+k taken |
| FileTable.AllocUntilFull | xv6/file.c:26-41 | on an empty table every one of its slots is handed out in order and the next allocation fails |
| Dispatch.FileStat | xv6/file.c:132-142 | returns 0 after one stati call exactly for an inode-backed file, and -1 with no call otherwise |
| Dispatch.FileRead | xv6/file.c:145-165 | an unreadable file returns -1 with no call and no change; otherwise the back-end's reply is returned, a pipe read calls piperead with n, an inode read calls readi at the current offset and advances the offset only by a positive reply; read_bytes is charged with the requested n whatever the reply; no other slot changes |
| Dispatch.ReadKeepsSlot | xv6/file.c:145-165 | fileread changes only the offset and counters of its slot, so free slots stay empty, kind, flags, handles and reference count are kept, and the offset never decreases |
| Dispatch.ShellReadsNeverCharged | xv6/file.c:150-163 | any sequence of reads by the shell, whatever the back-end replies, leaves both counters of the slot unchanged |
| Dispatch.StatAfterLastClose | xv6/file.c:105-142 | after the close that drops the last reference, filestat on that slot returns -1 and calls nothing |
| Dispatch.PlannedCallsShape | xv6/file.c:187-206 | the reference chunking of an n-byte write has chunk j at offset j*max of size min(max, n - j*max), each between 1 and max bytes, and just enough chunks to cover n |
| Dispatch.ThreeChunkExample | xv6/file.c:187-192 | a write of 2*max+1 bytes is planned as chunks of max, max and 1 bytes at consecutive offsets |
| Dispatch.WriteChunks | xv6/file.c:187-206 | the chunk loop writes 0..n bytes, advances the offset by exactly what was written, attempts a prefix of the planned chunks (all of them when everything is written), every counted chunk was written in full, and a short total means the last attempted chunk failed and none followed |
| Dispatch.FileWrite | xv6/file.c:169-211 | an unwritable file returns -1 with no call and no change; a pipe write is charged n and returns pipewrite's reply; an inode write advances the offset by the bytes written, charges exactly that total to write_bytes, makes a prefix of the planned transacted chunk writes, and returns n when all bytes were written and -1 otherwise |

## Left out

- Locking: `ftable.lock`, the inode sleep-locks (`ilock`/`iunlock`) and the
  ordering that runs finalisation after the table lock is released. Each
  operation is one atomic step; the lock calls are not recorded.
- The pipe, inode and log implementations (`piperead`, `pipewrite`,
  `pipeclose`, `readi`, `writei`, `stati`, `iput`, `begin_op`, `end_op`) are
  not part of this model; their calls are recorded and their replies are
  parameters.
- `fileinit` and the device switch table `devsw`: no logic to model. The kinds
  are the three this file uses.
- Buffer contents and the `addr + i` pointer arithmetic: only byte counts
  matter to this layer.
- Integer widths: the offset, the counters and the loop total are unbounded;
  C `int`/`uint` overflow and wrap-around are not modelled.
- MAXOPBLOCKS comes from param.h, which is not part of this model; it is set
  to xv6's value 10, and the proofs use only that it is at least 6.
- Descriptors.GetFd: an index past the end of the descriptor sequence reads as
  a null entry. The loop bound of 256 exceeds the size of a process's
  descriptor array, so in C a scan of a full array without a match reads past
  its end; the model stops there instead.
- Dispatch.FileWrite: the short-write panic is not reachable, because writei
  is required to write a whole chunk or return a negative value.
- The reference count is a natural number: `filedup` and `fileclose` panic
  before it could go below 1, so it never becomes negative.
