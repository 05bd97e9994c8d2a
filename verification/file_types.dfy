/** Data model of xv6's open-file layer: the kinds of file object, one slot of
    the global file table, the calling process's context, and the record of
    calls made into the pipe, inode and log back-ends. */
module FileTypes {

  /** The conventional Some/None datatype, used where the C code has a pointer
      that may be null. */
  datatype Option<+T> = None | Some(value: T)

  /** `type` field of `struct file`: which back-end handle is valid. */
  datatype Kind = FdNone | FdPipe | FdInode

  /** One slot of `ftable.file`. Pipe and inode pointers are opaque handles. */
  datatype File = File(
    kind: Kind,
    ref: nat,          // number of descriptor entries sharing this slot
    readable: bool,
    writable: bool,
    pipe: nat,         // handle of the pipe (meaningful for FdPipe)
    ip: nat,           // handle of the inode (meaningful for FdInode)
    off: nat,          // read/write position (meaningful for FdInode)
    readBytes: int,    // accounting counters kept by update_bytes
    writeBytes: int
  )

  /** The file table: a slot is named by its index (pointer identity in C). */
  type Table = seq<File>

  /** The calling process as the accounting code sees it: its name and its
      descriptor array, each entry either empty or naming a table slot. */
  datatype Proc = Proc(name: string, ofile: seq<Option<nat>>)

  /** Counters reported to the caller by fetchiostats. */
  datatype IoStats = IoStats(readBytes: int, writeBytes: int)

  /** Calls into code outside this model, in the order they are made.
      `Txn(body)` is a log transaction: begin_op, the calls of `body`, end_op. */
  datatype Call =
    | PipeRead(pipe: nat, n: int)
    | PipeWrite(pipe: nat, n: int)
    | PipeClose(pipe: nat, writable: bool)
    | ReadI(ip: nat, off: nat, n: int)
    | WriteI(ip: nat, off: nat, n: int)
    | StatI(ip: nat)
    | Iput(ip: nat)
    | Txn(body: seq<Call>)

  /** Largest number of blocks one log transaction may write (param.h; xv6's
      value). The model relies only on MAXOPBLOCKS >= 6. */
  const MAXOPBLOCKS: int := 10

  /** Block size used by filewrite's chunk bound. */
  const BSIZE: int := 512

  /** Largest chunk filewrite hands to writei inside one transaction: the
      transaction budget minus the inode block, the indirect block and two
      blocks of slop for unaligned writes, halved for allocation bitmaps. */
  const MaxChunk: int := ((MAXOPBLOCKS - 1 - 1 - 2) / 2) * BSIZE

  /** A free slot holds no file: its kind is FdNone. */
  ghost predicate TableInv(t: Table)
  {
    forall i :: 0 <= i < |t| ==> (t[i].ref == 0 ==> t[i].kind == FdNone)
  }

  /** Two tables agree on every slot except `s`. */
  ghost predicate OthersUnchanged(t: Table, t': Table, s: nat)
  {
    |t'| == |t| && forall j :: 0 <= j < |t| && j != s ==> t'[j] == t[j]
  }
}
