/** The index that a restart of the second server builds from its files, for any
    files and for those of a history, and what it answers. */
module LogRestart {
  import opened Bytes
  import opened RecordLog
  import opened LogIndex

  /** A record with a value becomes its key's entry. */
  function Noted(index: Index, p: Pos, r: Record): (index': Index) {
    if |r.value| > 0 then index[r.key := p] else index
  }

  /** Reading one file: each record with a value becomes its key's position. */
  function ReadFile(index: Index, file: nat, rs: seq<Record>): (r: Index) {
    if rs == [] then index
    else
      Noted(ReadFile(index, file, rs[..|rs| - 1]), Pos(file, |Log(rs[..|rs| - 1])|), rs[|rs| - 1])
  }

  /** Reading the files in the order of the manifest. */
  function Rebuilt(files: Files): (r: Index) {
    if files == [] then map[]
    else ReadFile(Rebuilt(files[..|files| - 1]), |files| - 1, files[|files| - 1])
  }

  lemma {:induction false} RebuiltOpened(files: Files)
    ensures Rebuilt(Opened(files)) == Rebuilt(files)
  {
    if Opened(files) != files {
      assert (files + [[]])[..|files|] == files;
    }
  }

  lemma {:induction false} ReadFileAppended(index: Index, file: nat, rs: seq<Record>, r: Record)
    ensures ReadFile(index, file, rs + [r]) == Noted(ReadFile(index, file, rs), Pos(file, |Log(rs)|), r)
  {
    assert (rs + [r])[..|rs|] == rs;
  }

  lemma {:induction false} RebuiltGrows(first: Files, last: seq<Record>, r: Record)
    ensures Rebuilt(first + [last + [r]]) == Noted(Rebuilt(first + [last]), Pos(|first|, |Log(last)|), r)
  {
    RebuiltLast(first, last);
    RebuiltLast(first, last + [r]);
    ReadFileAppended(Rebuilt(first), |first|, last, r);
  }

  lemma {:induction false} RebuiltAppended(files: Files, r: Record)
    requires |files| >= 1
    ensures Rebuilt(Appended(files, r)) == Noted(Rebuilt(files), End(files), r)
  {
    var n := |files| - 1;
    RebuiltGrows(files[..n], files[n], r);
    assert files[..n] + [files[n]] == files;
  }

  lemma {:induction false} RebuiltLast(first: Files, last: seq<Record>)
    ensures Rebuilt(first + [last]) == ReadFile(Rebuilt(first), |first|, last)
  {
    assert (first + [last])[..|first|] == first;
  }

  /** A position before the place where the next record goes. */
  predicate Before(p: Pos, files: Files) {
    |files| >= 1 && (p.file < |files| - 1 || (p.file == |files| - 1 && p.offset < |Log(files[|files| - 1])|))
  }

  lemma EndIsNew(files: Files, r: Record)
    requires |files| >= 1
    ensures Before(End(files), Appended(files, r))
    ensures forall p :: Before(p, files) ==> p != End(files) && Before(p, Appended(files, r))
  {
    LogAppend(files[|files| - 1], r);
  }

  lemma OpenedBefore(files: Files)
    ensures forall p :: Before(p, files) ==> Before(p, Opened(files))
  {
  }

  // ---- any files: each key's last record with a value ----

  predicate StoredAt(files: Files, f: int, i: int, key: Text) {
    && 0 <= f < |files| && 0 <= i < |files[f]|
    && files[f][i].key == key && |files[f][i].value| > 0
  }

  /** `p` is the place of a record of `key` with a value, and no such record comes
      later. */
  ghost predicate LastStored(files: Files, p: Pos, key: Text) {
    && (exists f, i :: StoredAt(files, f, i, key) && p == PosOf(files, f, i))
    && (forall f, i :: StoredAt(files, f, i, key) ==> !Precedes(p, PosOf(files, f, i)))
  }

  ghost predicate FindsLast(index: Index, files: Files, key: Text) {
    && (key in index <==> exists f, i :: StoredAt(files, f, i, key))
    && (key in index ==> LastStored(files, index[key], key))
  }

  lemma {:induction false} FindsLastInEmptyFile(first: Files, key: Text)
    requires FindsLast(Rebuilt(first), first, key)
    ensures FindsLast(Rebuilt(first + [[]]), first + [[]], key)
  {
    var files: Files := first + [[]];
    RebuiltLast(first, []);
    forall f, i ensures StoredAt(files, f, i, key) <==> StoredAt(first, f, i, key) {
      assert 0 <= f < |first| ==> files[f] == first[f];
    }
    forall f, i | StoredAt(first, f, i, key) ensures PosOf(files, f, i) == PosOf(first, f, i) {
      assert files[f] == first[f];
    }
    if key in Rebuilt(first) {
      var f, i :| StoredAt(first, f, i, key) && Rebuilt(first)[key] == PosOf(first, f, i);
      assert StoredAt(files, f, i, key);
    }
  }

  /** One more record in the last file. */
  lemma {:induction false} OneMoreRecord(first: Files, last: seq<Record>, r: Record, f: int, i: int, key: Text)
    ensures var files, more := first + [last], first + [last + [r]];
      && (StoredAt(more, f, i, key) <==>
            StoredAt(files, f, i, key) || (f == |first| && i == |last| && r.key == key && |r.value| > 0))
      && (StoredAt(files, f, i, key) ==>
            PosOf(more, f, i) == PosOf(files, f, i) && !Precedes(Pos(|first|, |Log(last)|), PosOf(files, f, i)))
      && PosOf(more, |first|, |last|) == Pos(|first|, |Log(last)|)
  {
    assert (last + [r])[..|last|] == last;
    if f == |first| && 0 <= i < |last| {
      assert (last + [r])[..i] == last[..i];
      LogPrefix(last, i);
    }
  }

  lemma {:induction false} FindsLastOneMore(first: Files, last: seq<Record>, r: Record, key: Text)
    requires FindsLast(Rebuilt(first + [last]), first + [last], key)
    ensures FindsLast(Rebuilt(first + [last + [r]]), first + [last + [r]], key)
  {
    var files: Files, more: Files := first + [last], first + [last + [r]];
    RebuiltGrows(first, last, r);
    forall f, i
      ensures StoredAt(more, f, i, key) <==>
        StoredAt(files, f, i, key) || (f == |first| && i == |last| && r.key == key && |r.value| > 0)
      ensures StoredAt(files, f, i, key) ==>
        PosOf(more, f, i) == PosOf(files, f, i) && !Precedes(Pos(|first|, |Log(last)|), PosOf(files, f, i))
      ensures PosOf(more, |first|, |last|) == Pos(|first|, |Log(last)|)
    {
      OneMoreRecord(first, last, r, f, i, key);
    }
    if r.key == key && |r.value| > 0 {
      assert StoredAt(more, |first|, |last|, key);
    } else if key in Rebuilt(files) {
      var f, i :| StoredAt(files, f, i, key) && Rebuilt(files)[key] == PosOf(files, f, i);
      assert StoredAt(more, f, i, key);
    }
  }

  /** Over any files, the loop finds exactly each key's last record with a value. */
  lemma {:induction false} RebuiltFindsLast(files: Files, key: Text)
    ensures FindsLast(Rebuilt(files), files, key)
    decreases |files|, if files == [] then 0 else |files[|files| - 1]|
  {
    if files != [] {
      var first, last := files[..|files| - 1], files[|files| - 1];
      assert first + [last] == files;
      if last == [] {
        RebuiltFindsLast(first, key);
        FindsLastInEmptyFile(first, key);
      } else {
        var before := last[..|last| - 1];
        RebuiltFindsLast(first + [before], key);
        FindsLastOneMore(first, before, last[|last| - 1], key);
        assert before + [last[|last| - 1]] == last;
      }
    }
  }

  // ---- a history's files: what a restarted server answers ----

  /** The map made by the sets of values that are not empty, and by them alone. */
  function Kept(h: seq<Op>): (m: Plain) {
    if h == [] then map[] else KeptAfter(Kept(h[..|h| - 1]), h[|h| - 1])
  }

  function RestartState(files: Files): (s: State) { State(files, Rebuilt(files)) }

  /** A record that no entry is made for. */
  lemma AppendKeeps(s: State, m: Plain, r: Record)
    requires Addresses(s, m)
    ensures Addresses(State(Appended(Opened(s.files), r), s.index), m)
  {
    var more := Appended(Opened(s.files), r);
    forall k | k in m ensures Lookup(more, s.index[k]) == Lookup(s.files, s.index[k]) {
      LookupStable(s.files, r, s.index[k]);
    }
  }

  function KeptAfter(m: Plain, op: Op): (r: Plain) {
    if op.Set? && |op.value| > 0 then m[op.key := op.value] else m
  }

  lemma {:induction false} KeepsAddresses(files: Files, m: Plain, op: Op)
    requires Addresses(RestartState(files), m)
    ensures var more := Appended(Opened(files), RecordOf(op)); Addresses(RestartState(more), KeptAfter(m, op))
  {
    RebuiltOpened(files);
    RebuiltAppended(Opened(files), RecordOf(op));
    if op.Set? && |op.value| > 0 {
      AfterAddresses(State(files, Rebuilt(files)), m, op);
    } else {
      AppendKeeps(State(files, Rebuilt(files)), m, RecordOf(op));
    }
  }

  /** After a restart the index reads back exactly what was kept, for every history. */
  lemma {:induction false} RestartAddresses(h: seq<Op>)
    ensures Addresses(RestartState(Run(h).files), Kept(h))
  {
    if h != [] {
      RestartAddresses(h[..|h| - 1]);
      KeepsAddresses(Run(h[..|h| - 1]).files, Kept(h[..|h| - 1]), h[|h| - 1]);
    }
  }

  // ---- when a restart rebuilds the index ----

  /** Which kind of operation was the last one on a key. */
  datatype Last = Never | Stored(value: Text) | Deleted

  function LastOn(h: seq<Op>, key: Text): (l: Last) {
    if h == [] then Never
    else if h[|h| - 1].key != key then LastOn(h[..|h| - 1], key)
    else match h[|h| - 1] case Set(_, v) => Stored(v) case Del(_) => Deleted
  }

  /** The key was once set to a value that is not empty. */
  function EverStored(h: seq<Op>, key: Text): (b: bool) {
    h != [] && ((h[|h| - 1].Set? && h[|h| - 1].key == key && |h[|h| - 1].value| > 0) || EverStored(h[..|h| - 1], key))
  }

  /** A restart forgets a key whose last value is empty, and brings back a
      deleted key that once had a value. */
  predicate SurvivesRestart(h: seq<Op>, key: Text) {
    match LastOn(h, key)
    case Never => true
    case Stored(v) => |v| > 0
    case Deleted => !EverStored(h, key)
  }

  datatype Entry = Absent | At(pos: Pos)

  function EntryOf(index: Index, key: Text): (e: Entry) {
    if key in index then At(index[key]) else Absent
  }

  ghost predicate SameEntry(a: Index, b: Index, key: Text) { EntryOf(a, key) == EntryOf(b, key) }

  lemma IndexStep(s: State, op: Op, key: Text)
    ensures EntryOf(After(s, op).index, key) ==
      if key != op.key then EntryOf(s.index, key)
      else if op.Set? then At(End(Opened(s.files))) else Absent
  {
  }

  lemma RebuiltStep(s: State, op: Op, key: Text)
    ensures EntryOf(Rebuilt(After(s, op).files), key) ==
      if key == op.key && op.Set? && |op.value| > 0 then At(End(Opened(s.files)))
      else EntryOf(Rebuilt(s.files), key)
  {
    RebuiltOpened(s.files);
    RebuiltAppended(Opened(s.files), RecordOf(op));
  }

  /** What the two indexes say about one key, by the last operation on it. */
  ghost predicate Entries(mine: Entry, rebuilt: Entry, last: Last, ever: bool) {
    && (mine.At? <==> last.Stored?)
    && (rebuilt.At? <==> ever)
    && (last.Stored? && |last.value| > 0 ==> rebuilt == mine)
    && (last.Stored? && |last.value| == 0 ==> rebuilt != mine)
    && (last.Never? ==> !ever)
  }

  ghost predicate EntryBefore(e: Entry, files: Files) { e.At? ==> Before(e.pos, files) }

  ghost predicate EntriesOf(h: seq<Op>, key: Text) {
    var mine, rebuilt := EntryOf(Run(h).index, key), EntryOf(Rebuilt(Run(h).files), key);
    && Entries(mine, rebuilt, LastOn(h, key), EverStored(h, key))
    && EntryBefore(rebuilt, Run(h).files)
  }

  lemma BeforeStep(s: State, op: Op, e: Entry)
    requires EntryBefore(e, s.files)
    ensures e != At(End(Opened(s.files)))
    ensures EntryBefore(e, After(s, op).files)
    ensures EntryBefore(At(End(Opened(s.files))), After(s, op).files)
  {
    OpenedBefore(s.files);
    EndIsNew(Opened(s.files), RecordOf(op));
  }

  lemma EntriesStep(h: seq<Op>, key: Text)
    requires h != [] && EntriesOf(h[..|h| - 1], key)
    ensures EntriesOf(h, key)
  {
    var s, op := Run(h[..|h| - 1]), h[|h| - 1];
    IndexStep(s, op, key);
    RebuiltStep(s, op, key);
    BeforeStep(s, op, EntryOf(Rebuilt(s.files), key));
  }

  lemma {:induction false} EntriesAfterRun(h: seq<Op>, key: Text)
    ensures EntriesOf(h, key)
  {
    if h != [] {
      EntriesAfterRun(h[..|h| - 1], key);
      EntriesStep(h, key);
    }
  }

  /** A restart rebuilds a key's entry exactly when the key survives it. */
  lemma {:induction false} RestartEntry(h: seq<Op>, key: Text)
    ensures SameEntry(Run(h).index, Rebuilt(Run(h).files), key) <==> SurvivesRestart(h, key)
  {
    EntriesAfterRun(h, key);
  }

  /** A restart rebuilds the whole index exactly when every key survives it. */
  lemma {:induction false} RestartIndex(h: seq<Op>)
    ensures Rebuilt(Run(h).files) == Run(h).index <==> AllSurvive(h)
  {
    var index, rebuilt := Run(h).index, Rebuilt(Run(h).files);
    forall k ensures SameEntry(index, rebuilt, k) <==> SurvivesRestart(h, k) {
      RestartEntry(h, k);
    }
    SameIndex(index, rebuilt);
  }

  lemma SameIndex(a: Index, b: Index)
    ensures a == b <==> forall k :: SameEntry(a, b, k)
  {
    if forall k :: SameEntry(a, b, k) {
      forall k ensures k in a <==> k in b { assert SameEntry(a, b, k); }
      forall k | k in a ensures a[k] == b[k] { assert SameEntry(a, b, k); }
    }
  }

  ghost predicate AllSurvive(h: seq<Op>) { forall k :: SurvivesRestart(h, k) }

  /** In particular when nothing was deleted and no value was empty. */
  lemma {:induction false} NoDeletesSurvive(h: seq<Op>, key: Text)
    requires forall i :: 0 <= i < |h| ==> h[i].Set? && |h[i].value| > 0
    ensures SurvivesRestart(h, key)
  {
    if h != [] { NoDeletesSurvive(h[..|h| - 1], key); }
  }

  /** A deleted key comes back. */
  lemma DeletedKeyComesBack()
    ensures var h := [Set([1], [2]), Del([1])];
      [1] !in Run(h).index && [1] in Rebuilt(Run(h).files)
  {
    var h := [Set([1], [2]), Del([1])];
    assert h[..1] == [Set([1], [2])] && h[..1][..0] == [];
    EntriesAfterRun(h, [1]);
  }

  /** A restarted server answers for a key as before exactly when the key
      survives. */
  lemma {:induction false} KeptAnswers(h: seq<Op>, key: Text)
    ensures ValueOf(Kept(h), key) == ValueOf(PlainRun(map[], h), key) <==> SurvivesRestart(h, key)
  {
    KeptLast(h, key);
  }

  datatype Value = None | Some(text: Text)

  function ValueOf(m: Plain, key: Text): (v: Value) { if key in m then Some(m[key]) else None }

  lemma {:induction false} KeptLast(h: seq<Op>, key: Text)
    ensures key in Kept(h) <==> EverStored(h, key)
    ensures key in Kept(h) ==> |Kept(h)[key]| > 0
    ensures ValueOf(PlainRun(map[], h), key) == if LastOn(h, key).Stored? then Some(LastOn(h, key).value) else None
    ensures LastOn(h, key).Stored? && |LastOn(h, key).value| > 0 ==> key in Kept(h) && Kept(h)[key] == LastOn(h, key).value
    ensures LastOn(h, key).Never? ==> !EverStored(h, key)
  {
    if h != [] { KeptLast(h[..|h| - 1], key); }
  }

  /** Clients cannot set a value that is empty. */
  predicate FromClients(h: seq<Op>) { forall i :: 0 <= i < |h| && h[i].Set? ==> |h[i].value| > 0 }

  /** The key was once set. */
  function EverSet(h: seq<Op>, key: Text): (b: bool) {
    h != [] && ((h[|h| - 1].Set? && h[|h| - 1].key == key) || EverSet(h[..|h| - 1], key))
  }

  /** Then only keys deleted after having been set fail to survive. */
  lemma {:induction false} ClientKeySurvives(h: seq<Op>, key: Text)
    requires FromClients(h)
    ensures SurvivesRestart(h, key) <==> !(LastOn(h, key).Deleted? && EverSet(h, key))
  {
    ClientStores(h, key);
  }

  lemma {:induction false} ClientStores(h: seq<Op>, key: Text)
    requires FromClients(h)
    ensures EverStored(h, key) <==> EverSet(h, key)
    ensures LastOn(h, key).Stored? ==> |LastOn(h, key).value| > 0
  {
    if h != [] { ClientStores(h[..|h| - 1], key); }
  }

  // ---- the files on disk ----

  ghost predicate DataOf(datas: seq<seq<byte>>, files: Files) {
    |datas| == |files| && forall i :: 0 <= i < |datas| ==> datas[i] == Log(files[i])
  }

  /** What walking each of the first files meets. */
  ghost predicate FilesIn(datas: seq<seq<byte>>, files: Files) {
    |files| <= |datas| && forall i :: 0 <= i < |files| ==> Parses(datas[i], files[i])
  }

  lemma {:induction false} OneMoreFile(datas: seq<seq<byte>>, files: Files, rs: seq<Record>)
    requires FilesIn(datas, files) && |files| < |datas| && Parses(datas[|files|], rs)
    ensures FilesIn(datas, files + [rs])
    ensures Rebuilt(files + [rs]) == ReadFile(Rebuilt(files), |files|, rs)
  {
    RebuiltLast(files, rs);
    var more := files + [rs];
    forall i | 0 <= i < |more| ensures Parses(datas[i], more[i]) {
      assert i < |files| ==> more[i] == files[i];
    }
  }

  /** In files that were only appended to, the walk meets what was written. */
  lemma FilesWritten(datas: seq<seq<byte>>, files: Files, found: Files)
    requires DataOf(datas, files) && FilesIn(datas, found) && |found| == |datas|
    ensures found == files
  {
    forall i | 0 <= i < |datas| ensures found[i] == files[i] {
      ParsesLog(files[i]);
      ParsesOnce(datas[i], found[i], files[i]);
    }
  }
}
