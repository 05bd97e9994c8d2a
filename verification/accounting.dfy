/** Per-file I/O accounting: update_bytes charges a transfer to one of the two
    counters of a file, fetchiostats reports them. Both identify the file by
    its descriptor index in the calling process. */
module Accounting {
  import opened FileTypes
  import opened Descriptors

  /** Direction codes passed as update_bytes's `m`. */
  const ReadDir: int := 0
  const WriteDir: int := 1

  /** The descriptor whose charges and reports are special-cased. */
  const StderrFd: int := 2

  /** A transfer is charged only when the file has a descriptor index of at
      least 1 in the caller and the caller is not the shell. */
  ghost predicate Counted(s: nat, p: Proc)
  {
    GetFd(p.ofile, s) >= 1 && !IsShell(p.name)
  }

  /** The amount charged for a transfer of `n` bytes through descriptor `fd`. */
  function Charge(fd: int, n: int): int
  {
    if fd == StderrFd then 1 else n
  }

  /** update_bytes(f, m, n) for the file in slot `s`, called by process `p`. */
  function UpdateBytes(f: File, s: nat, p: Proc, m: int, n: int): (r: File)
    // only the two counters may change
    ensures r == f.(readBytes := r.readBytes, writeBytes := r.writeBytes)
    ensures !Counted(s, p) ==> r == f
    ensures m != ReadDir && m != WriteDir ==> r == f
    ensures Counted(s, p) && m == ReadDir ==>
      r.readBytes == f.readBytes + Charge(GetFd(p.ofile, s), n) && r.writeBytes == f.writeBytes
    ensures Counted(s, p) && m == WriteDir ==>
      r.writeBytes == f.writeBytes + Charge(GetFd(p.ofile, s), n) && r.readBytes == f.readBytes
    ensures n >= 0 ==> r.readBytes >= f.readBytes && r.writeBytes >= f.writeBytes
  {
    var sh := IsShell(p.name);
    var fd := GetFd(p.ofile, s);
    if fd < 1 then f
    else
      var n' := if fd == StderrFd then 1 else n;
      if sh then f
      else if m == ReadDir then f.(readBytes := f.readBytes + n')
      else if m == WriteDir then f.(writeBytes := f.writeBytes + n')
      else f
  }

  /** C's `a / 4` on int: the quotient truncated toward zero. */
  function CDivBy4(a: int): (q: int)
    ensures a >= 0 ==> 0 <= q && 4 * q <= a < 4 * q + 4
    ensures a < 0 ==> q <= 0 && 4 * q - 4 < a <= 4 * q
  {
    if a >= 0 then a / 4 else -((-a) / 4)
  }

  /** fetchiostats for the file in slot `s`, called by process `p`. */
  function FetchIoStats(f: File, s: nat, p: Proc): (io: IoStats)
    ensures io.readBytes == f.readBytes
    ensures GetFd(p.ofile, s) != StderrFd ==> io.writeBytes == f.writeBytes
    ensures GetFd(p.ofile, s) == StderrFd && f.writeBytes == 6 ==> io.writeBytes == 0
    ensures GetFd(p.ofile, s) == StderrFd && f.writeBytes != 6 && f.writeBytes >= 0 ==>
      0 <= 4 * io.writeBytes <= f.writeBytes < 4 * io.writeBytes + 4
    ensures GetFd(p.ofile, s) == StderrFd && f.writeBytes < 0 ==>
      4 * io.writeBytes - 4 < f.writeBytes <= 4 * io.writeBytes <= 0
  {
    var fd := GetFd(p.ofile, s);
    var w := f.writeBytes;
    if fd == StderrFd then
      var w' := if w == 6 then 0 else w;
      IoStats(f.readBytes, CDivBy4(w'))
    else IoStats(f.readBytes, w)
  }

  /** A sequence of transfers `(m, n)` charged one after another. */
  function ChargeAll(f: File, s: nat, p: Proc, ts: seq<(int, int)>): File
    decreases |ts|
  {
    if |ts| == 0 then f
    else ChargeAll(UpdateBytes(f, s, p, ts[0].0, ts[0].1), s, p, ts[1..])
  }

  /** Writes through descriptor 2 are charged one byte each, whatever their
      size, and never touch the read counter. */
  lemma {:induction false} StderrWritesCountOne(f: File, s: nat, p: Proc, ts: seq<(int, int)>)
    requires GetFd(p.ofile, s) == StderrFd && !IsShell(p.name)
    requires forall k :: 0 <= k < |ts| ==> ts[k].0 == WriteDir
    ensures ChargeAll(f, s, p, ts).writeBytes == f.writeBytes + |ts|
    ensures ChargeAll(f, s, p, ts).readBytes == f.readBytes
    decreases |ts|
  {
    if |ts| > 0 {
      var g := UpdateBytes(f, s, p, ts[0].0, ts[0].1);
      StderrWritesCountOne(g, s, p, ts[1..]);
    }
  }

  /** A process named "sh" leaves both counters of every file untouched,
      whatever it reads or writes. */
  lemma {:induction false} ShellIsNeverCharged(f: File, s: nat, p: Proc, ts: seq<(int, int)>)
    requires IsShell(p.name)
    ensures ChargeAll(f, s, p, ts) == f
    decreases |ts|
  {
    if |ts| > 0 {
      ShellIsNeverCharged(UpdateBytes(f, s, p, ts[0].0, ts[0].1), s, p, ts[1..]);
    }
  }

  /** Charging any transfers of non-negative size never decreases a counter. */
  lemma {:induction false} CountersMonotone(f: File, s: nat, p: Proc, ts: seq<(int, int)>)
    requires forall k :: 0 <= k < |ts| ==> ts[k].1 >= 0
    ensures ChargeAll(f, s, p, ts).readBytes >= f.readBytes
    ensures ChargeAll(f, s, p, ts).writeBytes >= f.writeBytes
    decreases |ts|
  {
    if |ts| > 0 {
      CountersMonotone(UpdateBytes(f, s, p, ts[0].0, ts[0].1), s, p, ts[1..]);
    }
  }

  /** Through descriptor 2, six one-byte writes on fresh counters report 0
      written bytes and five report 1. */
  lemma StderrReportAfterWrites(f: File, s: nat, p: Proc)
    requires GetFd(p.ofile, s) == StderrFd && !IsShell(p.name)
    requires f.writeBytes == 0
    ensures FetchIoStats(ChargeAll(f, s, p, seq(6, _ => (WriteDir, 1))), s, p).writeBytes == 0
    ensures FetchIoStats(ChargeAll(f, s, p, seq(5, _ => (WriteDir, 1))), s, p).writeBytes == 1
    ensures FetchIoStats(ChargeAll(f, s, p, seq(8, _ => (WriteDir, 1))), s, p).writeBytes == 2
  {
    StderrWritesCountOne(f, s, p, seq(6, _ => (WriteDir, 1)));
    StderrWritesCountOne(f, s, p, seq(5, _ => (WriteDir, 1)));
    StderrWritesCountOne(f, s, p, seq(8, _ => (WriteDir, 1)));
  }
}
