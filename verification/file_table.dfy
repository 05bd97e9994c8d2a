/** The global file table: allocation (filealloc), sharing (filedup) and
    release (fileclose) of slots, with close's deferred finalisation. The
    table lock is not modelled; each operation is one atomic step. */
module FileTable {
  import opened FileTypes

  /** Result of filealloc: the new table and the chosen slot (None for a
      null return). */
  datatype Alloc = Alloc(table: Table, slot: Option<nat>)

  /** Result of fileclose: the new table and the back-end calls made. */
  datatype Closed = Closed(table: Table, calls: seq<Call>)

  /** The lowest free slot at or after `i`, given that none before `i` is free. */
  function FirstFree(t: Table, i: nat): (r: Option<nat>)
    requires i <= |t|
    requires forall k :: 0 <= k < i ==> t[k].ref != 0
    ensures r.None? <==> forall k :: 0 <= k < |t| ==> t[k].ref != 0
    ensures r.Some? ==> i <= r.value < |t| && t[r.value].ref == 0
    ensures r.Some? ==> forall k :: 0 <= k < r.value ==> t[k].ref != 0
    decreases |t| - i
  {
    if i == |t| then None
    else if t[i].ref == 0 then Some(i)
    else FirstFree(t, i + 1)
  }

  /** filealloc: claim the lowest-index slot whose reference count is 0. */
  function FileAlloc(t: Table): (r: Alloc)
    ensures |r.table| == |t|
    ensures r.slot.None? <==> forall k :: 0 <= k < |t| ==> t[k].ref > 0
    ensures r.slot.None? ==> r.table == t
    ensures r.slot.Some? ==>
      var i := r.slot.value;
      && i < |t| && t[i].ref == 0
      && (forall k :: 0 <= k < i ==> t[k].ref > 0)
      && r.table[i] == t[i].(ref := 1)
      && OthersUnchanged(t, r.table, i)
  {
    match FirstFree(t, 0)
    case None => Alloc(t, None)
    case Some(i) => Alloc(t[i := t[i].(ref := 1)], Some(i))
  }

  /** filedup: one more sharer of slot `s`; the same slot is returned. A slot
      with no reference is a kernel panic, so callers must not pass one. */
  function FileDup(t: Table, s: nat): (r: (Table, nat))
    requires s < |t| && t[s].ref >= 1
    ensures r.1 == s
    ensures OthersUnchanged(t, r.0, s)
    ensures r.0[s].ref == t[s].ref + 1
    ensures r.0[s] == t[s].(ref := r.0[s].ref)
  {
    (t[s := t[s].(ref := t[s].ref + 1)], s)
  }

  /** The clean-up fileclose runs on a snapshot of the slot once the last
      reference is gone. */
  function Finalise(ff: File): seq<Call>
  {
    match ff.kind
    case FdPipe => [PipeClose(ff.pipe, ff.writable)]
    case FdInode => [Txn([Iput(ff.ip)])]
    case FdNone => []
  }

  /** fileclose: drop one reference to slot `s`. When the last one goes the
      slot is copied, reset to a free slot, and the copy is finalised. A slot
      with no reference is a kernel panic, so callers must not pass one. */
  function FileClose(t: Table, s: nat): (r: Closed)
    requires s < |t| && t[s].ref >= 1
    ensures OthersUnchanged(t, r.table, s)
    ensures r.table[s].ref == t[s].ref - 1
    ensures t[s].ref > 1 ==> r.table[s] == t[s].(ref := t[s].ref - 1) && r.calls == []
    ensures t[s].ref == 1 ==> r.table[s] == t[s].(ref := 0, kind := FdNone)
    ensures t[s].ref == 1 && t[s].kind == FdPipe ==> r.calls == [PipeClose(t[s].pipe, t[s].writable)]
    ensures t[s].ref == 1 && t[s].kind == FdInode ==> r.calls == [Txn([Iput(t[s].ip)])]
    ensures t[s].ref == 1 && t[s].kind == FdNone ==> r.calls == []
  {
    var f := t[s];
    var left := f.ref - 1;
    if left > 0 then Closed(t[s := f.(ref := left)], [])
    else
      var ff := f.(ref := left);
      Closed(t[s := ff.(ref := 0, kind := FdNone)], Finalise(ff))
  }

  /** filealloc, filedup and fileclose keep free slots empty of any file. */
  lemma OpsPreserveTableInv(t: Table, s: nat)
    requires TableInv(t)
    ensures TableInv(FileAlloc(t).table)
    ensures s < |t| && t[s].ref >= 1 ==> TableInv(FileDup(t, s).0)
    ensures s < |t| && t[s].ref >= 1 ==> TableInv(FileClose(t, s).table)
  {
  }

  /** A filedup followed by a fileclose of the same slot restores the table
      and calls no back-end. */
  lemma DupThenCloseRestores(t: Table, s: nat)
    requires s < |t| && t[s].ref >= 1
    ensures FileClose(FileDup(t, s).0, s) == Closed(t, [])
  {
    var d := FileDup(t, s).0;
    assert d[s := d[s].(ref := d[s].ref - 1)] == t;
  }

  /** `k` successive fileclose calls on slot `s`, with the calls they make. */
  function CloseTimes(t: Table, s: nat, k: nat): Closed
    requires s < |t| && t[s].ref >= k
    decreases k
  {
    if k == 0 then Closed(t, [])
    else
      var c := FileClose(t, s);
      var rest := CloseTimes(c.table, s, k - 1);
      Closed(rest.table, c.calls + rest.calls)
  }

  /** Closing fewer times than there are references calls no back-end;
      closing exactly as many frees the slot and finalises its file once,
      using the kind and handles it had before the reset. */
  lemma {:induction false} CloseFinalisesOnce(t: Table, s: nat, k: nat)
    requires s < |t| && t[s].ref >= k
    ensures OthersUnchanged(t, CloseTimes(t, s, k).table, s)
    ensures k < t[s].ref ==> CloseTimes(t, s, k).table[s] == t[s].(ref := t[s].ref - k)
    ensures k < t[s].ref ==> CloseTimes(t, s, k).calls == []
    ensures 0 < k == t[s].ref ==> CloseTimes(t, s, k).table[s] == t[s].(ref := 0, kind := FdNone)
    ensures 0 < k == t[s].ref ==> CloseTimes(t, s, k).calls == Finalise(t[s])
    decreases k
  {
    if k > 0 {
      var c := FileClose(t, s);
      CloseFinalisesOnce(c.table, s, k - 1);
      if t[s].ref > 1 {
        assert c.table[s] == t[s].(ref := t[s].ref - 1);
        assert Finalise(c.table[s]) == Finalise(t[s]);
      }
    }
  }

  /** `k` successive filealloc calls, with the slots they return. */
  function AllocTimes(t: Table, k: nat): (Table, seq<Option<nat>>)
    decreases k
  {
    if k == 0 then (t, [])
    else
      var a := FileAlloc(t);
      var rest := AllocTimes(a.table, k - 1);
      (rest.0, [a.slot] + rest.1)
  }

  /** On a table whose first `j` slots are taken and the rest free, `k`
      allocations hand out slots j, j+1, ..., j+k-1 in that order. */
  lemma {:induction false} AllocInOrder(t: Table, j: nat, k: nat)
    requires j + k <= |t|
    requires forall i :: 0 <= i < |t| ==> (t[i].ref == 0 <==> i >= j)
    ensures AllocTimes(t, k).1 == seq(k, i => Some(j + i))
    ensures |AllocTimes(t, k).0| == |t|
    ensures forall i :: 0 <= i < |t| ==> (AllocTimes(t, k).0[i].ref == 0 <==> i >= j + k)
    decreases k
  {
    if k > 0 {
      var a := FileAlloc(t);
      assert t[j].ref == 0;
      assert a.slot == Some(j);
      AllocInOrder(a.table, j + 1, k - 1);
      assert [a.slot] + AllocTimes(a.table, k - 1).1 == seq(k, i => Some(j + i));
    }
  }

  /** On an empty table of NFILE slots, NFILE allocations all succeed, in
      slot order, and the next one returns no slot. */
  lemma AllocUntilFull(t: Table)
    requires forall i :: 0 <= i < |t| ==> t[i].ref == 0
    ensures AllocTimes(t, |t|).1 == seq(|t|, i => Some(i))
    ensures FileAlloc(AllocTimes(t, |t|).0).slot == None
  {
    AllocInOrder(t, 0, |t|);
  }
}
