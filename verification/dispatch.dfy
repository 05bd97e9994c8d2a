/** The read/write/stat dispatcher: permission checks, routing to the pipe or
    inode back-end, offset bookkeeping, accounting, and the chunking of inode
    writes into pieces that fit one log transaction. Back-end replies are
    parameters; the calls made are returned in order. */
module Dispatch {
  import opened FileTypes
  import opened Accounting
  import opened Descriptors
  import opened FileTable

  /** Result of a read or write: the new table, the value returned to the
      caller, and the back-end calls made. */
  datatype IoResult = IoResult(table: Table, ret: int, calls: seq<Call>)

  /** Result of filestat: the value returned and the back-end calls made. */
  datatype StatResult = StatResult(ret: int, calls: seq<Call>)

  /** filestat: only an inode-backed file has metadata (0, after stati);
      every other kind returns -1 without calling anything. */
  function FileStat(t: Table, s: nat): (r: StatResult)
    requires s < |t|
    ensures r.ret == 0 <==> t[s].kind == FdInode
    ensures r.ret != 0 ==> r.ret == -1 && r.calls == []
    ensures r.ret == 0 ==> r.calls == [StatI(t[s].ip)]
  {
    if t[s].kind == FdInode then StatResult(0, [StatI(t[s].ip)])
    else StatResult(-1, [])
  }

  /** fileread of `n` bytes from slot `s` by process `p`, where `reply` is what
      piperead or readi returns. A readable file of any kind but pipe or
      inode is a kernel panic, so callers must not pass one. */
  function FileRead(t: Table, s: nat, p: Proc, n: int, reply: int): (r: IoResult)
    requires s < |t|
    requires t[s].readable ==> t[s].kind != FdNone
    ensures OthersUnchanged(t, r.table, s)
    ensures !t[s].readable ==> r == IoResult(t, -1, [])
    ensures t[s].readable ==> r.ret == reply
    ensures t[s].readable && t[s].kind == FdPipe ==>
      r.calls == [PipeRead(t[s].pipe, n)] && r.table[s].off == t[s].off
    ensures t[s].readable && t[s].kind == FdInode ==>
      r.calls == [ReadI(t[s].ip, t[s].off, n)] &&
      r.table[s].off == t[s].off + (if reply > 0 then reply else 0)
    // the requested count is charged, whatever the back-end delivered
    ensures t[s].readable ==>
      r.table[s] == UpdateBytes(t[s], s, p, ReadDir, n).(off := r.table[s].off)
  {
    var f := t[s];
    if !f.readable then IoResult(t, -1, [])
    else if f.kind == FdPipe then
      IoResult(t[s := UpdateBytes(f, s, p, ReadDir, n)], reply, [PipeRead(f.pipe, n)])
    else
      var f1 := if reply > 0 then f.(off := f.off + reply) else f;
      IoResult(t[s := UpdateBytes(f1, s, p, ReadDir, n)], reply, [ReadI(f.ip, f.off, n)])
  }

  /** fileread touches nothing of its slot but the offset and the counters:
      free slots stay empty and the offset only moves forward. */
  lemma ReadKeepsSlot(t: Table, s: nat, p: Proc, n: int, reply: int)
    requires s < |t|
    requires t[s].readable ==> t[s].kind != FdNone
    requires TableInv(t)
    ensures TableInv(FileRead(t, s, p, n, reply).table)
    ensures var f := FileRead(t, s, p, n, reply).table[s];
      && f.off >= t[s].off
      && f == t[s].(off := f.off, readBytes := f.readBytes, writeBytes := f.writeBytes)
  {
  }

  /** `rs` successive freads of slot `s` by `p`: each pair is the requested
      count and the back-end's reply. */
  function ReadAll(t: Table, s: nat, p: Proc, rs: seq<(int, int)>): (r: Table)
    requires s < |t|
    requires t[s].readable ==> t[s].kind != FdNone
    ensures |r| == |t|
    decreases |rs|
  {
    if |rs| == 0 then t
    else
      var t1 := FileRead(t, s, p, rs[0].0, rs[0].1).table;
      assert t1[s].kind == t[s].kind && t1[s].readable == t[s].readable;
      ReadAll(t1, s, p, rs[1..])
  }

  /** Reads by the shell are never charged, whatever was asked for and
      whatever the back-end delivered. */
  lemma {:induction false} ShellReadsNeverCharged(t: Table, s: nat, p: Proc, rs: seq<(int, int)>)
    requires s < |t|
    requires t[s].readable ==> t[s].kind != FdNone
    requires IsShell(p.name)
    ensures ReadAll(t, s, p, rs)[s].readBytes == t[s].readBytes
    ensures ReadAll(t, s, p, rs)[s].writeBytes == t[s].writeBytes
    decreases |rs|
  {
    if |rs| > 0 {
      var t1 := FileRead(t, s, p, rs[0].0, rs[0].1).table;
      assert t1[s].kind == t[s].kind && t1[s].readable == t[s].readable;
      ShellReadsNeverCharged(t1, s, p, rs[1..]);
    }
  }

  /** Once fileclose has dropped the last reference, the slot has no
      metadata to report and filestat calls nothing. */
  lemma StatAfterLastClose(t: Table, s: nat)
    requires s < |t| && t[s].ref == 1
    ensures FileStat(FileClose(t, s).table, s) == StatResult(-1, [])
  {
  }

  /** Size of the chunk filewrite attempts once `i` of `n` bytes are written. */
  function ChunkSize(n: int, i: int): int
  {
    if n - i > MaxChunk then MaxChunk else n - i
  }

  /** One chunk write inside its own log transaction. */
  function ChunkCall(ip: nat, off: nat, len: int): Call
  {
    Txn([WriteI(ip, off, len)])
  }

  /** Reference chunking of an `n`-byte inode write starting at `off`, when
      every chunk succeeds: pieces of at most MaxChunk bytes, each at the
      offset where the previous one ended. */
  function PlannedCalls(ip: nat, off: nat, n: int): seq<Call>
    decreases n
  {
    if n <= 0 then []
    else
      var c := if n > MaxChunk then MaxChunk else n;
      [ChunkCall(ip, off, c)] + PlannedCalls(ip, off + c, n - c)
  }

  /** The planned chunks in closed form: chunk `j` starts `j * MaxChunk`
      bytes in and holds ChunkSize bytes, and there are just enough chunks to
      cover `n` bytes. */
  lemma {:induction false} PlannedCallsShape(ip: nat, off: nat, n: int)
    ensures n <= 0 ==> |PlannedCalls(ip, off, n)| == 0
    ensures n > 0 ==>
      (|PlannedCalls(ip, off, n)| - 1) * MaxChunk < n <= |PlannedCalls(ip, off, n)| * MaxChunk
    ensures forall j :: 0 <= j < |PlannedCalls(ip, off, n)| ==>
      PlannedCalls(ip, off, n)[j] == ChunkCall(ip, off + j * MaxChunk, ChunkSize(n, j * MaxChunk))
    ensures forall j :: 0 <= j < |PlannedCalls(ip, off, n)| ==>
      0 < ChunkSize(n, j * MaxChunk) <= MaxChunk
    decreases n
  {
    if n > 0 {
      var c := if n > MaxChunk then MaxChunk else n;
      var rest := PlannedCalls(ip, off + c, n - c);
      PlannedCallsShape(ip, off + c, n - c);
      var all := PlannedCalls(ip, off, n);
      assert all == [ChunkCall(ip, off, c)] + rest;
      forall j | 0 <= j < |all|
        ensures all[j] == ChunkCall(ip, off + j * MaxChunk, ChunkSize(n, j * MaxChunk))
        ensures 0 < ChunkSize(n, j * MaxChunk) <= MaxChunk
      {
        if j > 0 {
          assert all[j] == rest[j - 1];
          assert c == MaxChunk;
          assert ChunkSize(n - c, (j - 1) * MaxChunk) == ChunkSize(n, j * MaxChunk);
        }
      }
    }
  }

  /** A write of 2 * MaxChunk + 1 bytes is planned as three chunks of
      MaxChunk, MaxChunk and 1 bytes at increasing offsets. */
  lemma ThreeChunkExample(ip: nat, off: nat)
    ensures PlannedCalls(ip, off, 2 * MaxChunk + 1) ==
      [ChunkCall(ip, off, MaxChunk), ChunkCall(ip, off + MaxChunk, MaxChunk),
       ChunkCall(ip, off + 2 * MaxChunk, 1)]
  {
    PlannedCallsShape(ip, off, 2 * MaxChunk + 1);
  }

  /** The back-end promise filewrite relies on: writei writes a whole chunk or
      fails with a negative value (a short write is a kernel panic). */
  ghost predicate WriteiFullOrFail(writei: (nat, nat, int) -> int)
  {
    forall ip, off, len :: len > 0 ==> writei(ip, off, len) < 0 || writei(ip, off, len) == len
  }

  /** What writei returned for chunk `j` of an `n`-byte write at `off0`. */
  function ChunkReply(writei: (nat, nat, int) -> int, ip: nat, off0: nat, n: int, j: nat): int
  {
    writei(ip, off0 + j * MaxChunk, ChunkSize(n, j * MaxChunk))
  }

  /** filewrite's loop for an inode: write `n` bytes at `off0` chunk by chunk,
      each inside a log transaction, stopping at the first failed chunk.
      Returns the bytes written, the final offset and the calls made. */
  method WriteChunks(ip: nat, off0: nat, n: int, writei: (nat, nat, int) -> int)
    returns (i: int, off: nat, calls: seq<Call>)
    requires WriteiFullOrFail(writei)
    ensures n <= 0 ==> i == 0 && calls == []
    ensures n > 0 ==> 0 <= i <= n
    ensures off == off0 + i
    // the chunks attempted are a prefix of the plan, all of it on success
    ensures calls <= PlannedCalls(ip, off0, n)
    ensures i == n ==> calls == PlannedCalls(ip, off0, n)
    // every chunk that counts towards `i` was written in full
    ensures forall j: nat :: j < |calls| && j * MaxChunk < i ==>
      ChunkReply(writei, ip, off0, n, j) == ChunkSize(n, j * MaxChunk)
    // a short total means the last chunk attempted failed and nothing followed
    ensures i != n && n > 0 ==>
      && |calls| > 0 && i == (|calls| - 1) * MaxChunk
      && ChunkReply(writei, ip, off0, n, |calls| - 1) < 0
  {
    PlannedCallsShape(ip, off0, n);
    ghost var plan := PlannedCalls(ip, off0, n);
    i := 0;
    off := off0;
    calls := [];
    while i < n
      invariant n <= 0 ==> i == 0 && calls == []
      invariant n > 0 ==> 0 <= i <= n
      invariant off == off0 + i
      invariant i < n ==> i == |calls| * MaxChunk
      invariant i == n && n > 0 ==> (|calls| - 1) * MaxChunk < n <= |calls| * MaxChunk
      invariant |calls| <= |plan|
      invariant forall j :: 0 <= j < |calls| ==> calls[j] == plan[j]
      invariant forall j: nat :: j < |calls| ==>
        ChunkReply(writei, ip, off0, n, j) == ChunkSize(n, j * MaxChunk)
    {
      var n1 := n - i;
      if n1 > MaxChunk {
        n1 := MaxChunk;
      }
      var r := writei(ip, off, n1);
      assert |calls| < |plan|;
      calls := calls + [ChunkCall(ip, off, n1)];
      if r > 0 {
        off := off + r;
      }
      if r < 0 {
        assert ChunkReply(writei, ip, off0, n, |calls| - 1) < 0;
        break;
      }
      assert r == n1;
      i := i + r;
    }
    if i == n {
      assert calls == plan;
    }
  }

  /** filewrite of `n` bytes to slot `s` by process `p`. `pipeReply` is what
      pipewrite returns; `writei` answers each chunk write. A writable file of
      any kind but pipe or inode is a kernel panic, so callers must not pass
      one. */
  method FileWrite(t: Table, s: nat, p: Proc, n: int, pipeReply: int,
                   writei: (nat, nat, int) -> int)
    returns (r: IoResult)
    requires s < |t|
    requires t[s].writable ==> t[s].kind != FdNone
    requires WriteiFullOrFail(writei)
    ensures OthersUnchanged(t, r.table, s)
    ensures !t[s].writable ==> r == IoResult(t, -1, [])
    ensures t[s].writable && t[s].kind == FdPipe ==>
      r == IoResult(t[s := UpdateBytes(t[s], s, p, WriteDir, n)], pipeReply, [PipeWrite(t[s].pipe, n)])
    ensures t[s].writable && t[s].kind == FdInode ==>
      var w := r.table[s].off - t[s].off;
      && 0 <= w && (n > 0 ==> w <= n) && (n <= 0 ==> w == 0)
      // the offset advances by, and the counter is charged with, the bytes written
      && r.table[s] == UpdateBytes(t[s], s, p, WriteDir, w).(off := t[s].off + w)
      && r.calls <= PlannedCalls(t[s].ip, t[s].off, n)
      // every chunk that counts towards `w` was written in full
      && (forall j: nat :: j < |r.calls| && j * MaxChunk < w ==>
            ChunkReply(writei, t[s].ip, t[s].off, n, j) == ChunkSize(n, j * MaxChunk))
      && (w == n ==> r.ret == n && r.calls == PlannedCalls(t[s].ip, t[s].off, n))
      && (w != n ==> r.ret == -1)
      && (w != n && n > 0 ==>
            && |r.calls| > 0 && w == (|r.calls| - 1) * MaxChunk
            && ChunkReply(writei, t[s].ip, t[s].off, n, |r.calls| - 1) < 0)
  {
    var f := t[s];
    if !f.writable {
      return IoResult(t, -1, []);
    }
    if f.kind == FdPipe {
      return IoResult(t[s := UpdateBytes(f, s, p, WriteDir, n)], pipeReply, [PipeWrite(f.pipe, n)]);
    }
    var i, off, calls := WriteChunks(f.ip, f.off, n, writei);
    var f' := UpdateBytes(f.(off := off), s, p, WriteDir, i);
    r := IoResult(t[s := f'], if i == n then n else -1, calls);
  }
}
