/** A compaction pass over a file that a history of operations left: the premise of
    the pass holds, a record is live exactly when it is its key's last operation,
    and what a restart finds after the pass. */
module HistoryPass {
  import opened Bytes
  import opened RecordLog
  import opened DiskFiles
  import LogIndex
  import LogRestart
  import C = Compaction
  import F = CompactedFile

  type Op = LogIndex.Op

  type Files = LogIndex.Files

  // ---- records and operations ----

  /** All records, in the order of the files. */
  function Flat(files: Files): (rs: seq<Record>) {
    if files == [] then [] else Flat(files[..|files| - 1]) + files[|files| - 1]
  }

  /** The operation that wrote record `i` of file `f`, counted from the start. */
  function OpAt(files: Files, f: nat, i: nat): (n: nat)
    requires f < |files|
  {
    |Flat(files[..f])| + i
  }

  function Records(h: seq<Op>): (rs: seq<Record>)
    ensures |rs| == |h|
  {
    seq(|h|, n requires 0 <= n < |h| => LogIndex.RecordOf(h[n]))
  }

  lemma {:induction false} FlatLast(first: Files, last: seq<Record>)
    ensures Flat(first + [last]) == Flat(first) + last
  {
    assert (first + [last])[..|first|] == first;
  }

  lemma {:induction false} FlatOpened(files: Files)
    ensures Flat(LogIndex.Opened(files)) == Flat(files)
  {
    if LogIndex.Opened(files) != files { FlatLast(files, []); }
  }

  lemma {:induction false} FlatAppended(files: Files, r: Record)
    requires |files| >= 1
    ensures Flat(LogIndex.Appended(files, r)) == Flat(files) + [r]
  {
    var n := |files| - 1;
    FlatLast(files[..n], files[n] + [r]);
    FlatLast(files[..n], files[n]);
    assert files[..n] + [files[n]] == files;
  }

  lemma {:induction false} FlatAfter(s: LogIndex.State, op: Op)
    ensures Flat(LogIndex.After(s, op).files) == Flat(s.files) + [LogIndex.RecordOf(op)]
  {
    FlatOpened(s.files);
    FlatAppended(LogIndex.Opened(s.files), LogIndex.RecordOf(op));
  }

  lemma {:induction false} RecordsNext(h: seq<Op>)
    requires h != []
    ensures Records(h) == Records(h[..|h| - 1]) + [LogIndex.RecordOf(h[|h| - 1])]
  {
  }

  /** The records are those of the operations, in order. */
  lemma {:induction false} FlatRun(h: seq<Op>)
    ensures Flat(LogIndex.Run(h).files) == Records(h)
  {
    if h == [] {
      assert LogIndex.Run(h).files == [];
    } else {
      FlatRun(h[..|h| - 1]);
      FlatAfter(LogIndex.Run(h[..|h| - 1]), h[|h| - 1]);
      RecordsNext(h);
    }
  }

  lemma {:induction false} FlatAt(files: Files, f: nat, i: nat)
    requires f < |files| && i < |files[f]|
    ensures OpAt(files, f, i) < |Flat(files)| && Flat(files)[OpAt(files, f, i)] == files[f][i]
  {
    var last := |files| - 1;
    if f < last {
      FlatAt(files[..last], f, i);
      assert files[..last][..f] == files[..f];
    }
  }

  /** Which operation wrote a record. */
  lemma {:induction false} RecordIsOp(h: seq<Op>, f: nat, i: nat)
    requires f < |LogIndex.Run(h).files| && i < |LogIndex.Run(h).files[f]|
    ensures var n := OpAt(LogIndex.Run(h).files, f, i);
      && n < |h| && LogIndex.Run(h).files[f][i] == LogIndex.RecordOf(h[n])
      && LogIndex.Run(h).files[f][i] == Record(0, h[n].key, if h[n].Set? then h[n].value else [])
  {
    FlatRun(h);
    FlatAt(LogIndex.Run(h).files, f, i);
  }

  // ---- which records are live ----

  /** The index addresses record `i` of file `f`. */
  predicate Addressed(s: LogIndex.State, f: nat, i: nat)
    requires f < |s.files| && i < |s.files[f]|
  {
    var key := s.files[f][i].key;
    key in s.index && s.index[key] == LogIndex.PosOf(s.files, f, i)
  }

  /** The operation is its key's last one, and a Set. */
  predicate LastSet(h: seq<Op>, n: nat)
    requires n < |h|
  {
    h[n].Set? && forall m :: n < m < |h| ==> h[m].key != h[n].key
  }

  /** Where one more record goes, among the records already there. */
  lemma {:induction false} OneMorePlace(files: Files, r: Record, f: nat, i: nat)
    requires |files| >= 1 && f < |files| && i < |LogIndex.Appended(files, r)[f]|
    ensures var more := LogIndex.Appended(files, r);
      && (i == |files[f]| ==> f == |files| - 1 && more[f][i] == r && LogIndex.PosOf(more, f, i) == LogIndex.End(files))
      && (i < |files[f]| ==>
            && more[f][i] == files[f][i]
            && LogIndex.PosOf(more, f, i) == LogIndex.PosOf(files, f, i) != LogIndex.End(files))
      && i <= |files[f]| && OpAt(more, f, i) == OpAt(files, f, i)
  {
    var more := LogIndex.Appended(files, r);
    assert more[..f] == files[..f];
    if i < |files[f]| {
      assert more[f][..i] == files[f][..i];
      LogIndex.LogPrefix(files[f], i);
    } else if f == |files| - 1 {
      assert more[f][..i] == files[f];
    }
  }

  lemma {:induction false} OpenedPlace(files: Files, f: nat, i: nat)
    requires f < |LogIndex.Opened(files)| && i < |LogIndex.Opened(files)[f]|
    ensures f < |files| && LogIndex.Opened(files)[f] == files[f]
    ensures LogIndex.PosOf(LogIndex.Opened(files), f, i) == LogIndex.PosOf(files, f, i)
    ensures OpAt(LogIndex.Opened(files), f, i) == OpAt(files, f, i)
  {
    assert LogIndex.Opened(files)[..f] == files[..f];
  }

  lemma {:induction false} OlderAddressed(s: LogIndex.State, op: Op, f: nat, i: nat)
    requires var files := LogIndex.Opened(s.files); f < |files| && i < |files[f]|
    ensures var s' := LogIndex.After(s, op);
      && f < |s.files| && i < |s.files[f]| && f < |s'.files| && i < |s'.files[f]| && s'.files[f][i] == s.files[f][i]
      && OpAt(s'.files, f, i) == OpAt(s.files, f, i)
      && (Addressed(s', f, i) <==> Addressed(s, f, i) && op.key != s.files[f][i].key)
  {
    OpenedPlace(s.files, f, i);
    OneMorePlace(LogIndex.Opened(s.files), LogIndex.RecordOf(op), f, i);
  }

  lemma {:induction false} NewestAddressed(s: LogIndex.State, op: Op)
    ensures var files := LogIndex.Opened(s.files);
      var s', f := LogIndex.After(s, op), |files| - 1;
      f < |s'.files| && |files[f]| < |s'.files[f]| && (Addressed(s', f, |files[f]|) <==> op.Set?)
  {
    var files := LogIndex.Opened(s.files);
    OneMorePlace(files, LogIndex.RecordOf(op), |files| - 1, |files[|files| - 1]|);
  }

  /** The index addresses a record exactly when it was written by its key's last
      operation, and that is a Set. */
  lemma {:induction false} LiveExactly(h: seq<Op>, f: nat, i: nat)
    requires f < |LogIndex.Run(h).files| && i < |LogIndex.Run(h).files[f]|
    ensures OpAt(LogIndex.Run(h).files, f, i) < |h|
    ensures Addressed(LogIndex.Run(h), f, i) <==> LastSet(h, OpAt(LogIndex.Run(h).files, f, i))
  {
    RecordIsOp(h, f, i);
    var before, op := h[..|h| - 1], h[|h| - 1];
    var s := LogIndex.Run(before);
    if i < |LogIndex.Opened(s.files)[f]| {
      OpenedPlace(s.files, f, i);
      LiveExactly(before, f, i);
      RecordIsOp(before, f, i);
      OlderIsLive(h, s, f, i);
    } else {
      NewestIsLive(h, f, i);
    }
  }

  lemma {:induction false} OlderIsLive(h: seq<Op>, s: LogIndex.State, f: nat, i: nat)
    requires h != [] && f < |s.files| && i < |s.files[f]|
    requires f < |LogIndex.Opened(s.files)| && i < |LogIndex.Opened(s.files)[f]|
    requires OpAt(s.files, f, i) < |h| - 1 && s.files[f][i].key == h[OpAt(s.files, f, i)].key
    requires Addressed(s, f, i) <==> LastSet(h[..|h| - 1], OpAt(s.files, f, i))
    ensures var s' := LogIndex.After(s, h[|h| - 1]);
      && f < |s'.files| && i < |s'.files[f]| && OpAt(s'.files, f, i) == OpAt(s.files, f, i)
      && (Addressed(s', f, i) <==> LastSet(h, OpAt(s.files, f, i)))
  {
    OlderAddressed(s, h[|h| - 1], f, i);
    OlderRecord(h, OpAt(s.files, f, i));
  }

  lemma {:induction false} NewestIsLive(h: seq<Op>, f: nat, i: nat)
    requires h != [] && f < |LogIndex.Run(h).files| && i < |LogIndex.Run(h).files[f]|
    requires f < |LogIndex.Opened(LogIndex.Run(h[..|h| - 1]).files)| && i >= |LogIndex.Opened(LogIndex.Run(h[..|h| - 1]).files)[f]|
    ensures OpAt(LogIndex.Run(h).files, f, i) < |h|
    ensures Addressed(LogIndex.Run(h), f, i) <==> LastSet(h, OpAt(LogIndex.Run(h).files, f, i))
  {
    var s := LogIndex.Run(h[..|h| - 1]);
    OneMorePlace(LogIndex.Opened(s.files), LogIndex.RecordOf(h[|h| - 1]), f, i);
    NewestAddressed(s, h[|h| - 1]);
    NewestRecord(h, f, i);
  }

  lemma {:induction false} NewestRecord(h: seq<Op>, f: nat, i: nat)
    requires h != []
    requires var files := LogIndex.Opened(LogIndex.Run(h[..|h| - 1]).files); f == |files| - 1 && i == |files[f]|
    ensures f < |LogIndex.Run(h).files| && OpAt(LogIndex.Run(h).files, f, i) == |h| - 1
  {
    var before := h[..|h| - 1];
    var files := LogIndex.Opened(LogIndex.Run(before).files);
    FlatRun(before);
    FlatOpened(LogIndex.Run(before).files);
    FlatLast(files[..f], files[f]);
    assert files[..f] + [files[f]] == files;
    assert LogIndex.Run(h).files[..f] == files[..f];
  }

  lemma {:induction false} OlderRecord(h: seq<Op>, n: nat)
    requires n < |h| - 1
    ensures LastSet(h, n) <==> LastSet(h[..|h| - 1], n) && h[|h| - 1].key != h[n].key
  {
  }

  // ---- the premise of a pass ----

  /** The store's index as a pass over file `f` sees it. */
  function SeenFrom(index: LogIndex.Index, f: nat): (r: C.Index) {
    map k | k in index :: C.Entry(if index[k].file == f then C.Old else C.Other(index[k].file), index[k].offset)
  }

  /** An entry addresses a record of its key. */
  ghost predicate EntryHasRecord(s: LogIndex.State, key: Text)
    requires key in s.index
  {
    exists i :: s.index[key].file < |s.files| && 0 <= i < |s.files[s.index[key].file]|
      && RecordAt(s.files, s.index[key], key, i)
  }

  ghost predicate RecordAt(files: Files, p: LogIndex.Pos, key: Text, i: nat)
    requires p.file < |files| && i < |files[p.file]|
  {
    files[p.file][i].key == key && p == LogIndex.PosOf(files, p.file, i)
  }

  lemma {:induction false} EntriesHaveRecords(h: seq<Op>, key: Text)
    requires key in LogIndex.Run(h).index
    ensures EntryHasRecord(LogIndex.Run(h), key)
  {
    var before, op := h[..|h| - 1], h[|h| - 1];
    var s, s' := LogIndex.Run(before), LogIndex.Run(h);
    var files := LogIndex.Opened(s.files);
    if key == op.key {
      var f := |files| - 1;
      OneMorePlace(files, LogIndex.RecordOf(op), f, |files[f]|);
      assert RecordAt(s'.files, s'.index[key], key, |files[f]|);
    } else {
      EntriesHaveRecords(before, key);
      var p := s.index[key];
      var i :| p.file < |s.files| && 0 <= i < |s.files[p.file]| && RecordAt(s.files, p, key, i);
      OpenedPlace(s.files, p.file, i);
      OneMorePlace(files, LogIndex.RecordOf(op), p.file, i);
      assert RecordAt(s'.files, p, key, i);
    }
  }

  /** After any history the index is one that a pass over any file may start with. */
  lemma {:induction false} HistoryStarts(h: seq<Op>, f: nat)
    requires f < |LogIndex.Run(h).files|
    ensures C.Start(LogIndex.Run(h).files[f], SeenFrom(LogIndex.Run(h).index, f))
  {
    var s := LogIndex.Run(h);
    var seen := SeenFrom(s.index, f);
    forall k | k in seen && seen[k].node.Old? ensures C.AddressesRecord(s.files[f], seen[k], k) {
      EntriesHaveRecords(h, k);
      var i :| 0 <= i < |s.files[f]| && RecordAt(s.files, s.index[k], k, i);
      assert seen[k] == C.Entry(C.Old, C.OffsetOf(s.files[f], i));
    }
  }

  lemma {:induction false} LiveAtStartExactly(h: seq<Op>, f: nat, i: nat)
    requires f < |LogIndex.Run(h).files| && i < |LogIndex.Run(h).files[f]|
    ensures var s := LogIndex.Run(h);
      && OpAt(s.files, f, i) < |h|
      && (F.LiveAtStart(s.files[f], SeenFrom(s.index, f), i) <==> LastSet(h, OpAt(s.files, f, i)))
  {
    LiveExactly(h, f, i);
  }

  /** Record `j` has a value, and its key was changed again. */
  ghost predicate Superseded(h: seq<Op>, f: nat, j: nat)
    requires f < |LogIndex.Run(h).files| && j < |LogIndex.Run(h).files[f]|
  {
    var n := OpAt(LogIndex.Run(h).files, f, j);
    |LogIndex.Run(h).files[f][j].value| > 0 && n < |h| && !LastSet(h, n)
  }

  /** A pass over file `f` of a history, with nothing else going on: the entry of a
      key last set in that file finds its copy exactly when no record before it
      in the file has a value that was set or deleted again later. */
  lemma {:induction false} PassOverHistory(h: seq<Op>, f: nat, i: nat, acts: seq<C.Action>)
    requires f < |LogIndex.Run(h).files| && i < |LogIndex.Run(h).files[f]|
    requires var rs := LogIndex.Run(h).files[f]; F.ProgressOf(|rs|, acts).next == |rs| && |rs[i].value| > 0
    requires F.Quiet(acts) && OpAt(LogIndex.Run(h).files, f, i) < |h| && LastSet(h, OpAt(LogIndex.Run(h).files, f, i))
    ensures var rs, index := LogIndex.Run(h).files[f], SeenFrom(LogIndex.Run(h).index, f);
      F.CopyIsThere(C.Run(rs, index, acts), rs, i) <==> forall j :: 0 <= j < i ==> !Superseded(h, f, j)
  {
    var rs, index := LogIndex.Run(h).files[f], SeenFrom(LogIndex.Run(h).index, f);
    HistoryStarts(h, f);
    LiveAtStartExactly(h, f, i);
    F.QuietPass(rs, index, acts, i);
    forall j | 0 <= j < i ensures Superseded(h, f, j) <==> |rs[j].value| > 0 && !F.LiveAtStart(rs, index, j) {
      LiveAtStartExactly(h, f, j);
    }
  }

  /** So may the index of a restart, over any files of the store. */
  lemma {:induction false} RestartStarts(files: Files, f: nat)
    requires f < |files|
    ensures C.Start(files[f], SeenFrom(LogRestart.Rebuilt(files), f))
  {
    var index := LogRestart.Rebuilt(files);
    var seen := SeenFrom(index, f);
    forall k | k in seen && seen[k].node.Old? ensures C.AddressesRecord(files[f], seen[k], k) {
      LogRestart.RebuiltFindsLast(files, k);
      var g, i :| LogRestart.StoredAt(files, g, i, k) && index[k] == LogIndex.PosOf(files, g, i);
      assert seen[k] == C.Entry(C.Old, C.OffsetOf(files[f], i)) && files[f][i].key == k;
    }
  }

  // ---- a restart after a pass ----

  /** After a pass over file `f` a start finds, in that file, the records that are
      whole in its first `total` bytes, and all other files as they were. */
  lemma {:induction false} PassOnDisk(datas: seq<seq<byte>>, files: Files, f: nat, index: C.Index, acts: seq<C.Action>)
    requires OnDisk(datas, files) && f < |files| - 1 && datas[f] == Log(files[f])
    requires C.Start(files[f], index) && F.ProgressOf(|files[f]|, acts).next == |files[f]|
    ensures var total := C.Run(files[f], index, acts).total;
      && total <= |Log(files[f])|
      && OnDisk(datas[f := Log(files[f])[..total]], files[f := files[f][..WholeIn(files[f], total)]])
  {
    F.TotalExactly(files[f], index, acts);
    CutOnDisk(datas, files, f, C.Run(files[f], index, acts).total);
  }

  lemma {:induction false} CutOnDisk(datas: seq<seq<byte>>, files: Files, f: nat, total: nat)
    requires OnDisk(datas, files) && f < |files| - 1 && total <= |Log(files[f])|
    ensures OnDisk(datas[f := Log(files[f])[..total]], files[f := files[f][..WholeIn(files[f], total)]])
  {
    CutIntact(files[f], total);
    ReplacedOnDisk(datas, files, f, Log(files[f])[..total], files[f][..WholeIn(files[f], total)]);
  }

  lemma {:induction false} ReplacedOnDisk(datas: seq<seq<byte>>, files: Files, f: nat, data: seq<byte>, rs: seq<Record>)
    requires OnDisk(datas, files) && f < |files| - 1 && Intact(data, rs) && rs <= files[f]
    ensures OnDisk(datas[f := data], files[f := rs])
  {
    ReplacedFromStore(files, f, rs);
    ReplacedAll(datas, files, f, data, rs);
    ReplacedLast(datas, files, f, data, rs);
  }

  lemma {:induction false} ReplacedAll(datas: seq<seq<byte>>, files: Files, f: nat, data: seq<byte>, rs: seq<Record>)
    requires AllIntact(datas, files) && f < |files| && Intact(data, rs)
    ensures AllIntact(datas[f := data], files[f := rs])
  {
    var datas', files' := datas[f := data], files[f := rs];
    forall i | 0 <= i < |files'| ensures Intact(datas'[i], files'[i]) {
      ReplacedIntact(datas, files, f, data, rs, i);
    }
  }

  lemma {:induction false} ReplacedLast(datas: seq<seq<byte>>, files: Files, f: nat, data: seq<byte>, rs: seq<Record>)
    requires LastIsWhole(datas, files) && f < |files| - 1
    ensures LastIsWhole(datas[f := data], files[f := rs])
  {
    assert files[f := rs][|files| - 1] == files[|files| - 1] && datas[f := data][|files| - 1] == datas[|files| - 1];
  }

  lemma {:induction false} ReplacedIntact(datas: seq<seq<byte>>, files: Files, f: nat, data: seq<byte>, rs: seq<Record>, i: nat)
    requires AllIntact(datas, files) && f < |files| && i < |files| && Intact(data, rs)
    ensures Intact(datas[f := data][i], files[f := rs][i])
  {
    if i == f {
      assert datas[f := data][i] == data && files[f := rs][i] == rs;
    } else {
      assert datas[f := data][i] == datas[i] && files[f := rs][i] == files[i];
    }
  }

  lemma ReplacedFromStore(files: Files, f: nat, rs: seq<Record>)
    requires FromStore(files) && f < |files| && rs <= files[f]
    ensures FromStore(files[f := rs])
  {
  }

  /** A pass after which a restart has lost a key, or has its old value back. */
  lemma {:induction false} PassThenRestartLoses(a: Record, b: Record, index: C.Index)
    requires |a.value| > 0 && |b.value| > 0 && Size(a) == Size(b)
    requires index == map[b.key := C.Entry(C.Old, Size(a))]
    ensures C.Start([a, b], index)
    ensures WholeIn([a, b], C.Run([a, b], index, F.ThenPass([])).total) == 1
    ensures b.key in KeptIn([[a, b], []]) && KeptIn([[a, b], []])[b.key] == b.value
    ensures if a.key == b.key then b.key in KeptIn([[a], []]) && KeptIn([[a], []])[b.key] == a.value
            else b.key !in KeptIn([[a], []])
  {
    F.QuietPassMisreads(a, b, index);
    WholeOfPair(a, b);
    LastOfPair(a, b);
    OnlyOne(a, b.key);
  }

  lemma {:induction false} WholeOfPair(a: Record, b: Record)
    ensures WholeIn([a, b], Size(a)) == 1
  {
    F.PairOffsets(a, b);
    assert [a, b][..1] == [a] && [a][..0] == [];
    assert |Log([a])| == Size(a) by { assert Log([a]) == [] + Encode(a); }
  }

  lemma {:induction false} LastOfPair(a: Record, b: Record)
    requires |b.value| > 0
    ensures b.key in KeptIn([[a, b], []]) && KeptIn([[a, b], []])[b.key] == b.value
  {
    var files: Files := [[a, b], []];
    F.PairOffsets(a, b);
    KeptInIsLast(files, b.key);
    forall g, j | LogRestart.StoredAt(files, g, j, b.key)
      ensures !LogIndex.Precedes(LogIndex.PosOf(files, 0, 1), LogIndex.PosOf(files, g, j))
    {
      assert g == 0 && (j == 0 || j == 1);
    }
    assert LastStoredAt(files, 0, 1, b.key);
  }

  lemma {:induction false} OnlyOne(a: Record, key: Text)
    requires |a.value| > 0
    ensures if a.key == key then key in KeptIn([[a], []]) && KeptIn([[a], []])[key] == a.value
            else key !in KeptIn([[a], []])
  {
    var files: Files := [[a], []];
    KeptInIsLast(files, key);
    assert forall g, j :: LogRestart.StoredAt(files, g, j, key) ==> g == 0 && j == 0;
    if a.key == key { assert LastStoredAt(files, 0, 0, key); }
  }
}
