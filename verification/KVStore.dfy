/** The store of the second server between compactions: data files that are only
    appended to, and an index of positions in them. */
module KVStore {
  import opened Bytes
  import opened RecordLog
  import opened LogIndex
  import opened LogRestart
  import opened DiskFiles
  import opened StoreTasks

  datatype RecordOffset = RecordOffset(dataNode: DataNode, offset: nat)

  type Table = map<Text, RecordOffset>

  /** The object entries of an index of positions. */
  ghost predicate Points(table: Table, fileList: seq<DataNode>, index: LogIndex.Index) {
    && table.Keys == index.Keys
    && forall k :: k in index ==>
         index[k].file < |fileList| && table[k] == RecordOffset(fileList[index[k].file], index[k].offset)
  }

  ghost predicate Distinct(fileList: seq<DataNode>) {
    forall i, j :: 0 <= i < j < |fileList| ==> fileList[i] != fileList[j]
  }

  /** The bytes of file `i`: the first files are as they were at the start, all
      others hold their records and nothing else. */
  ghost function DataFor(files: Files, frozen: seq<seq<byte>>, i: nat): seq<byte>
    requires i < |files|
  {
    if i < |frozen| then frozen[i] else Log(files[i])
  }

  /** Files as they were at the start begin with their records; the last file, which
      is appended to, is not one of them. */
  ghost predicate Frozen(files: Files, frozen: seq<seq<byte>>) {
    && (|frozen| == 0 || |frozen| < |files|)
    && forall i :: 0 <= i < |frozen| ==> Log(files[i]) <= frozen[i]
  }

  /** The file objects hold these bytes, and know the sizes of their records. */
  ghost predicate Holds(fileList: seq<DataNode>, files: Files, frozen: seq<seq<byte>>)
    reads fileList
  {
    && |fileList| == |files|
    && forall i :: 0 <= i < |fileList| ==>
         fileList[i].data == DataFor(files, frozen, i) && fileList[i].totalOffset == |Log(files[i])|
  }

  /** What the bytes become when a file is opened, and when a record is appended. */
  lemma {:induction false} OpenedData(files: Files, frozen: seq<seq<byte>>)
    requires |frozen| <= |files|
    ensures var more := Opened(files);
      && (forall i :: 0 <= i < |files| ==> DataFor(more, frozen, i) == DataFor(files, frozen, i) && more[i] == files[i])
      && (|more| > |files| ==> |more| == |files| + 1 && more[|files|] == [] && DataFor(more, frozen, |files|) == [])
  {
  }

  lemma {:induction false} AppendedData(files: Files, frozen: seq<seq<byte>>, r: Record)
    requires |frozen| < |files|
    ensures var more, last := Appended(files, r), |files| - 1;
      && (forall i :: 0 <= i < last ==> DataFor(more, frozen, i) == DataFor(files, frozen, i) && more[i] == files[i])
      && DataFor(more, frozen, last) == DataFor(files, frozen, last) + Encode(r)
      && |Log(more[last])| == |Log(files[last])| + Size(r)
  {
    LogAppend(files[|files| - 1], r);
  }

  /** All files but the last. */
  function Earlier(datas: seq<seq<byte>>): (first: seq<seq<byte>>) { if datas == [] then [] else datas[..|datas| - 1] }

  lemma {:induction false} EarlierAreFrozen(datas: seq<seq<byte>>, files: Files)
    requires |datas| == |files| && forall i :: 0 <= i < |files| ==> Log(files[i]) <= datas[i]
    requires files != [] ==> datas[|files| - 1] == Log(files[|files| - 1])
    ensures Frozen(files, Earlier(datas)) && forall i :: 0 <= i < |files| ==> DataFor(files, Earlier(datas), i) == datas[i]
  {
    forall i | 0 <= i < |files| ensures DataFor(files, Earlier(datas), i) == datas[i] {
      if i < |files| - 1 { assert Earlier(datas)[i] == datas[i]; }
    }
  }

  lemma FrozenKept(files: Files, frozen: seq<seq<byte>>, r: Record)
    requires Frozen(files, frozen)
    ensures Frozen(Opened(files), frozen) && Frozen(Appended(Opened(files), r), frozen)
  {
    var more := Appended(Opened(files), r);
    forall i | 0 <= i < |frozen| ensures more[i] == files[i] { }
  }

  /** The file has these bytes, and the size of the records met in them. */
  ghost predicate ReadBack(node: DataNode, data: seq<byte>, rs: seq<Record>)
    reads node
  {
    node.data == data && node.totalOffset == |Log(rs)|
  }

  lemma PointsGrown(table: Table, fileList: seq<DataNode>, longer: seq<DataNode>, index: LogIndex.Index)
    requires Points(table, fileList, index) && fileList <= longer
    ensures Points(table, longer, index)
  {
  }

  /** An operation appends a record with its key, its value if it has one, and 0 for
      the checksum, and changes no other record. */
  lemma {:induction false} AfterAppends(s: State, op: Op)
    ensures var files, more := Opened(s.files), After(s, op).files;
      && |more| == |files| && more[..|files| - 1] == files[..|files| - 1]
      && more[|files| - 1] == files[|files| - 1] + [Record(0, op.key, if op.Set? then op.value else [])]
  {
  }

  lemma PointsDropped(table: Table, fileList: seq<DataNode>, index: LogIndex.Index, key: Text)
    requires Points(table, fileList, index)
    ensures Points(table - {key}, fileList, index - {key})
  {
  }

  lemma PointsSet(table: Table, fileList: seq<DataNode>, index: LogIndex.Index, key: Text, p: Pos)
    requires Points(table, fileList, index) && p.file < |fileList|
    ensures Points(table[key := RecordOffset(fileList[p.file], p.offset)], fileList, index[key := p])
  {
  }

  function FilesAfter(files: Files, t: Task): (r: Files) {
    if t.ChangeTask? then Appended(Opened(files), RecordOf(t.op)) else files
  }

  /** The files after the first `i` tasks, and the changes made. */
  function FilesAt(files: Files, ts: seq<Task>, i: nat): (r: Files)
    requires i <= |ts|
  {
    if i == 0 then files else FilesAfter(FilesAt(files, ts, i - 1), ts[i - 1])
  }

  function Changes(ts: seq<Task>, i: nat): (h: seq<Op>)
    requires i <= |ts|
  {
    if i == 0 then []
    else if ts[i - 1].ChangeTask? then Changes(ts, i - 1) + [ts[i - 1].op]
    else Changes(ts, i - 1)
  }

  /** Serving tasks over the files of a history leaves the files of the longer
      history, with the changes in it. */
  lemma {:induction false} FilesOfLongerHistory(h: seq<Op>, ts: seq<Task>)
    ensures FilesAt(Run(h).files, ts, |ts|) == Run(h + Changes(ts, |ts|)).files
  {
    NoTasks(Run(h).files, h, ts);
    FilesStayInStep(Run(h).files, h, ts, 0);
  }

  ghost predicate FilesOf(h: seq<Op>, files: Files) { files == Run(h).files }

  ghost predicate InStep(files: Files, h: seq<Op>, ts: seq<Task>, i: nat) {
    i <= |ts| && FilesOf(h + Changes(ts, i), FilesAt(files, ts, i))
  }

  lemma {:induction false} FilesStayInStep(files: Files, h: seq<Op>, ts: seq<Task>, k: nat)
    requires k <= |ts| && InStep(files, h, ts, k)
    ensures InStep(files, h, ts, |ts|)
    decreases |ts| - k
  {
    if k < |ts| {
      FilesStep(files, h, ts, k + 1);
      FilesStayInStep(files, h, ts, k + 1);
    }
  }

  lemma {:induction false} NoTasks(files: Files, h: seq<Op>, ts: seq<Task>)
    requires FilesOf(h, files)
    ensures InStep(files, h, ts, 0)
  {
    assert h + Changes(ts, 0) == h;
  }

  lemma {:induction false} FilesStep(files: Files, h: seq<Op>, ts: seq<Task>, i: nat)
    requires 0 < i <= |ts| && InStep(files, h, ts, i - 1)
    ensures InStep(files, h, ts, i)
  {
    var before := FilesAt(files, ts, i - 1);
    assert FilesAt(files, ts, i) == FilesAfter(before, ts[i - 1]);
    OneMoreChange(before, h, Changes(ts, i - 1), ts[i - 1]);
  }

  lemma {:induction false} OneMoreChange(files: Files, h: seq<Op>, c: seq<Op>, t: Task)
    requires FilesOf(h + c, files)
    ensures FilesOf(h + (if t.ChangeTask? then c + [t.op] else c), FilesAfter(files, t))
  {
    if t.ChangeTask? {
      OneMoreOp(map[], h + c, t.op);
      assert h + (c + [t.op]) == h + c + [t.op];
    }
  }

  /** The files that serving leaves can be started from again. */
  lemma {:induction false} FilesAtFromStore(files: Files, ts: seq<Task>, i: nat)
    requires FromStore(files) && i <= |ts|
    ensures FromStore(FilesAt(files, ts, i))
  {
    if i > 0 {
      FilesAtFromStore(files, ts, i - 1);
      if ts[i - 1].ChangeTask? { AppendFromStore(FilesAt(files, ts, i - 1), ts[i - 1].op); }
    }
  }

  /** What is on disk when the store's thread has held `files`. */
  ghost function Datas(files: Files, frozen: seq<seq<byte>>): (datas: seq<seq<byte>>)
    ensures |datas| == |files| && forall i :: 0 <= i < |files| ==> datas[i] == DataFor(files, frozen, i)
  {
    seq(|files|, i requires 0 <= i < |files| => DataFor(files, frozen, i))
  }

  lemma {:induction false} HeldOnDisk(files: Files, frozen: seq<seq<byte>>)
    requires FromStore(files) && Frozen(files, frozen)
    requires forall i :: 0 <= i < |frozen| ==> Intact(frozen[i], files[i])
    ensures OnDisk(Datas(files, frozen), files)
  {
    forall i | 0 <= i < |files| ensures Intact(Datas(files, frozen)[i], files[i]) {
      if i >= |frozen| { IntactLog(files[i]); }
    }
  }

  lemma {:induction false} FilesAtKeeps(files: Files, ts: seq<Task>, i: nat, k: nat)
    requires i <= |ts| && k < |files| - 1
    ensures |FilesAt(files, ts, i)| >= |files| && FilesAt(files, ts, i)[k] == files[k]
  {
    if i > 0 {
      FilesAtKeeps(files, ts, i - 1, k);
      FilesAfterKeeps(FilesAt(files, ts, i - 1), ts[i - 1], k);
    }
  }

  lemma {:induction false} FilesAfterKeeps(files: Files, t: Task, k: nat)
    requires k < |files| - 1
    ensures |FilesAfter(files, t)| >= |files| && FilesAfter(files, t)[k] == files[k]
  {
  }

  /** The bytes that serving leaves are files that a start accepts. */
  lemma {:induction false} ServedOnDisk(datas: seq<seq<byte>>, files: Files, ts: seq<Task>)
    requires OnDisk(datas, files) && Frozen(FilesAt(files, ts, |ts|), Earlier(datas))
    ensures OnDisk(Datas(FilesAt(files, ts, |ts|), Earlier(datas)), FilesAt(files, ts, |ts|))
  {
    var now := FilesAt(files, ts, |ts|);
    FilesAtFromStore(files, ts, |ts|);
    forall i | 0 <= i < |Earlier(datas)| ensures Intact(Earlier(datas)[i], now[i]) {
      FilesAtKeeps(files, ts, |ts|, i);
      assert Intact(datas[i], files[i]);
    }
    HeldOnDisk(now, Earlier(datas));
  }

  class SimpleKVStore {
    var fileList: seq<DataNode>
    var index: Table

    /** The records in the files and the positions in the index, and the plain
        map they stand for. */
    ghost var state: State
    ghost var contents: Plain
    ghost var frozen: seq<seq<byte>>

    ghost predicate Valid()
      reads this, fileList
    {
      && Distinct(fileList)
      && Holds(fileList, state.files, frozen) && Frozen(state.files, frozen)
      && Points(index, fileList, state.index)
      && Addresses(state, contents)
    }

    constructor ()
      ensures Valid() && state == Run([]) && contents == map[]
    {
      fileList, index := [], map[];
      state, contents, frozen := State([], map[]), map[], [];
    }

    /** Makes sure there is a file to append to. */
    method Check()
      requires Distinct(fileList) && Holds(fileList, state.files, frozen) && Frozen(state.files, frozen)
      modifies this`fileList
      ensures Distinct(fileList) && Holds(fileList, Opened(state.files), frozen) && |frozen| < |Opened(state.files)|
      ensures old(fileList) <= fileList && forall n :: n in fileList ==> n in old(fileList) || fresh(n)
      ensures if old(fileList) == [] || old(fileList[|fileList| - 1].totalOffset) > 10485760
              then |fileList| == |old(fileList)| + 1 && fileList[|fileList| - 1].data == []
              else fileList == old(fileList)
    {
      OpenedData(state.files, frozen);
      if |fileList| == 0 || fileList[|fileList| - 1].totalOffset > OFF_LIMIT {
        var node := new DataNode([]);
        fileList := fileList + [node];
      }
    }

    /** Appends a record to the last file and says where it starts. */
    method Append(record: Record, ghost files: Files) returns (position: RecordOffset)
      requires Distinct(fileList) && Holds(fileList, files, frozen) && |frozen| < |files|
      modifies fileList[|fileList| - 1]
      ensures Holds(fileList, Appended(files, record), frozen)
      ensures position == RecordOffset(fileList[End(files).file], End(files).offset)
    {
      assert fileList[|fileList| - 1].totalOffset == End(files).offset;
      AppendedData(files, frozen, record);
      position := Push(record);
      forall i | 0 <= i < |fileList|
        ensures fileList[i].data == DataFor(Appended(files, record), frozen, i)
        ensures fileList[i].totalOffset == |Log(Appended(files, record)[i])|
      {
        assert i < |fileList| - 1 ==> fileList[i] != fileList[|fileList| - 1];
      }
    }

    /** The effect on the last file. */
    method Push(record: Record) returns (position: RecordOffset)
      requires |fileList| >= 1
      modifies fileList[|fileList| - 1]
      ensures var node := fileList[|fileList| - 1];
        && node.data == old(node.data) + Encode(record) && node.totalOffset == old(node.totalOffset) + Size(record)
        && position == RecordOffset(node, old(node.totalOffset))
    {
      var node := fileList[|fileList| - 1];
      position := RecordOffset(node, node.totalOffset);
      var _ := node.AppendRecord(record);
    }

    /** Makes room and appends the record of an operation. */
    method Store(record: Record) returns (position: RecordOffset)
      requires Valid()
      modifies this`fileList, fileList
      ensures Distinct(fileList) && Holds(fileList, Appended(Opened(state.files), record), frozen)
      ensures old(fileList) <= fileList && forall n :: n in fileList ==> n in old(fileList) || fresh(n)
      ensures var end := End(Opened(state.files));
        end.file < |fileList| && position == RecordOffset(fileList[end.file], end.offset)
    {
      ghost var files := Opened(state.files);
      Check();
      assert fileList[|fileList| - 1] in fileList;
      position := Append(record, files);
    }

    /** The same; nothing else of what the store knows changes. */
    method Write(record: Record) returns (position: RecordOffset)
      requires Valid()
      modifies this`fileList, fileList
      ensures Distinct(fileList) && Holds(fileList, Appended(Opened(state.files), record), frozen)
      ensures old(fileList) <= fileList && forall n :: n in fileList ==> n in old(fileList) || fresh(n)
      ensures var end := End(Opened(state.files));
        end.file < |fileList| && position == RecordOffset(fileList[end.file], end.offset)
      ensures Points(index, old(fileList), state.index) && Addresses(state, contents) && Frozen(state.files, frozen)
    {
      position := Store(record);
    }

    /** The files hold the operation's record; now the index does too. */
    method Commit(op: Op, table: Table)
      requires Distinct(fileList) && Holds(fileList, After(state, op).files, frozen) && Frozen(state.files, frozen)
      requires Points(table, fileList, After(state, op).index) && Addresses(state, contents)
      modifies this`index, this`state, this`contents
      ensures Valid() && index == table
      ensures state == After(old(state), op) && contents == PlainAfter(old(contents), op)
    {
      AfterAddresses(state, contents, op);
      FrozenKept(state.files, frozen, RecordOf(op));
      Become(table, After(state, op), PlainAfter(contents, op));
    }

    method Become(table: Table, ghost s: State, ghost m: Plain)
      requires Distinct(fileList) && Holds(fileList, s.files, frozen) && Frozen(s.files, frozen)
      requires Points(table, fileList, s.index) && Addresses(s, m)
      modifies this`index, this`state, this`contents
      ensures Valid() && index == table && state == s && contents == m
    {
      index := table;
      state, contents := s, m;
    }

    method SetVal(key: Text, value: Text) returns (success: bool)
      requires Valid()
      modifies this, fileList
      ensures Valid() && success && forall n :: n in fileList ==> n in old(fileList) || fresh(n)
      ensures state == After(old(state), Set(key, value)) && contents == old(contents)[key := value]
      ensures frozen == old(frozen)
    {
      var position := Write(LogIndex.RecordOf(Set(key, value)));
      PointsGrown(index, old(fileList), fileList, state.index);
      PointsSet(index, fileList, state.index, key, End(Opened(state.files)));
      Commit(Set(key, value), index[key := position]);
      success := true;
    }

    /** Appends a record without a value and forgets the key; fails, after
        appending, for a key that is not there. */
    method DelVal(key: Text) returns (success: bool)
      requires Valid()
      modifies this, fileList
      ensures Valid() && forall n :: n in fileList ==> n in old(fileList) || fresh(n)
      ensures success <==> key in old(contents)
      ensures state == After(old(state), Del(key)) && contents == old(contents) - {key}
      ensures frozen == old(frozen)
    {
      var _ := Write(LogIndex.RecordOf(Del(key)));
      PointsGrown(index, old(fileList), fileList, state.index);
      PointsDropped(index, fileList, state.index, key);
      success := key in index;
      Commit(Del(key), index - {key});
    }

    /** Reading moves the descriptor of one file and nothing else. */
    method Fetch(node: DataNode, offset: nat) returns (n: int, record: Record)
      requires Valid() && node in fileList
      modifies node`pos
      ensures Valid()
      ensures var g := ReadAt(node.data, offset); g.Got? ==> n == g.n && record == g.record
    {
      n, record := node.GetRecord(offset);
    }

    lemma {:induction false} EntryReads(key: Text)
      requires Valid() && key in index
      ensures key in contents && index[key].dataNode in fileList
      ensures ReadAt(index[key].dataNode.data, index[key].offset)
           == Got(Record(0, key, contents[key]), Size(Record(0, key, contents[key])))
    {
      var p := state.index[key];
      assert Lookup(state.files, p) == ReadAt(Log(state.files[p.file]), p.offset);
      if p.file < |frozen| { IntactReads(frozen[p.file], state.files[p.file], p.offset); }
    }

    method GetVal(key: Text) returns (success: bool, value: Text)
      requires Valid()
      modifies fileList
      ensures Valid()
      ensures success <==> key in contents
      ensures value == if success then contents[key] else []
    {
      if key !in index {
        return false, [];
      }
      var position := index[key];
      EntryReads(key);
      var n, record := Fetch(position.dataNode, position.offset);
      success, value := n >= 0, record.value;
    }

    /** The loop over one file's records: every record with a value becomes its
        key's entry. */
    method ScanFile(node: DataNode, ghost file: nat, ghost was: LogIndex.Index) returns (ghost rs: seq<Record>)
      requires Points(index, fileList, was) && file < |fileList| && fileList[file] == node && node.totalOffset == 0
      modifies this`index, node
      ensures node.data == old(node.data) && Parses(node.data, rs) && node.totalOffset == |Log(rs)|
      ensures Points(index, fileList, ReadFile(was, file, rs))
    {
      var offset := 0;
      rs := [];
      while true
        invariant Points(index, fileList, ReadFile(was, file, rs))
        invariant node.data == old(node.data) && node.totalOffset == offset == |Log(rs)|
        invariant Walked(node.data, rs)
        decreases |node.data| - offset
      {
        var n, record := node.GetRecord(offset);
        if n <= 0 { break; }
        NoteRecord(record, node, offset, file, ReadFile(was, file, rs));
        ReadFileAppended(was, file, rs, record);
        WalkedNext(node.data, rs, record);
        rs := rs + [record];
        offset := offset + n;
        node.totalOffset := node.totalOffset + n;
      }
    }

    /** A record with a value becomes its key's entry. */
    method NoteRecord(record: Record, node: DataNode, offset: nat, ghost file: nat, ghost was: LogIndex.Index)
      requires Points(index, fileList, was) && file < |fileList| && fileList[file] == node
      modifies this`index
      ensures Points(index, fileList, Noted(was, Pos(file, offset), record))
    {
      PointsSet(index, fileList, was, record.key, Pos(file, offset));
      if |record.value| > 0 {
        index := index[record.key := RecordOffset(node, offset)];
      }
    }

    /** Opens one file and reads it back. */
    method LoadFile(data: seq<byte>, ghost was: LogIndex.Index) returns (node: DataNode, ghost rs: seq<Record>)
      requires Points(index, fileList, was)
      modifies this`fileList, this`index
      ensures fresh(node) && fileList == old(fileList) + [node]
      ensures Parses(data, rs) && ReadBack(node, data, rs)
      ensures Points(index, fileList, ReadFile(was, |old(fileList)|, rs))
    {
      node := new DataNode(data);
      PointsGrown(index, fileList, fileList + [node], was);
      fileList := fileList + [node];
      rs := ScanFile(node, |fileList| - 1, was);
    }

    /** The first files of `datas` are open, and their sizes are those of the
        records met in them, `files`. */
    ghost predicate Loaded(datas: seq<seq<byte>>, files: Files)
      reads this, fileList
    {
      && Distinct(fileList) && |fileList| == |files| <= |datas|
      && forall j :: 0 <= j < |files| ==> ReadBack(fileList[j], datas[j], files[j])
    }

    /** Reads all files back, in manifest order: each key's entry is for its last
        record with a value, in whatever the files hold. */
    method Initlization(datas: seq<seq<byte>>) returns (ghost files: Files)
      requires fileList == [] && index == map[]
      modifies this`fileList, this`index
      ensures Loaded(datas, files) && FilesIn(datas, files) && |files| == |datas|
      ensures Points(index, fileList, Rebuilt(files)) && forall key :: FindsLast(Rebuilt(files), files, key)
      ensures forall n :: n in fileList ==> fresh(n)
    {
      files := [];
      for i := 0 to |datas|
        invariant Loaded(datas, files) && FilesIn(datas, files) && |files| == i
        invariant Points(index, fileList, Rebuilt(files)) && forall n :: n in fileList ==> fresh(n)
      {
        ghost var rs := LoadNext(datas, files, Rebuilt(files));
        OneMoreFile(datas, files, rs);
        files := files + [rs];
      }
      forall key ensures FindsLast(Rebuilt(files), files, key) { RebuiltFindsLast(files, key); }
    }

    /** Opens the next file. */
    method LoadNext(datas: seq<seq<byte>>, ghost files: Files, ghost was: LogIndex.Index) returns (ghost rs: seq<Record>)
      requires |fileList| < |datas| && Loaded(datas, files) && Points(index, fileList, was)
      modifies this`fileList, this`index
      ensures Loaded(datas, files + [rs]) && Parses(datas[|files|], rs)
      ensures Points(index, fileList, ReadFile(was, |files|, rs))
      ensures forall n :: n in fileList ==> n in old(fileList) || fresh(n)
    {
      var node;
      node, rs := LoadFile(datas[|fileList|], was);
      assert forall j :: 0 <= j < |files| ==> ReadBack(fileList[j], datas[j], files[j]);
    }

    /** A restart over files of whole records, the last one with nothing after them:
        it reads back what they keep. */
    method Restart(datas: seq<seq<byte>>, ghost files: Files)
      requires fileList == [] && index == map[] && OnDisk(datas, files)
      modifies this
      ensures Valid() && state == RestartState(files) && contents == KeptIn(files) && frozen == Earlier(datas)
      ensures forall n :: n in fileList ==> fresh(n)
    {
      frozen := Earlier(datas);
      ghost var found := Initlization(datas);
      FoundOnDisk(datas, files, found);
      KeptInAddresses(files);
      OnDiskStarts(datas, files);
      EarlierAreFrozen(datas, files);
      LoadedHolds(datas, files);
      Become(index, RestartState(files), KeptIn(files));
    }

    lemma {:induction false} LoadedHolds(datas: seq<seq<byte>>, files: Files)
      requires Loaded(datas, files)
      requires |files| == |datas| && forall i :: 0 <= i < |files| ==> DataFor(files, Earlier(datas), i) == datas[i]
      ensures Holds(fileList, files, Earlier(datas))
    {
    }

    /** One task of the store's thread. */
    method ProcessTask(t: Task) returns (a: Answer)
      requires Valid()
      modifies this, fileList
      ensures Valid() && forall n :: n in fileList ==> n in old(fileList) || fresh(n)
      ensures a == PlainAnswer(old(contents), t)
      ensures t.GetTask? ==> (a.success <==> t.key in old(contents)) && (a.success ==> a.value == old(contents)[t.key])
                             && contents == old(contents)
      ensures t.ChangeTask? && t.op.Set? ==> a.success && contents == old(contents)[t.op.key := t.op.value]
      ensures t.ChangeTask? && t.op.Del? ==>
        (a.success <==> t.op.key in old(contents)) && contents == old(contents) - {t.op.key}
      ensures contents == PlainTask(old(contents), t) && state.files == FilesAfter(old(state.files), t)
      ensures frozen == old(frozen)
    {
      match t {
        case GetTask(key) =>
          var success, value := GetVal(key);
          a := Answer(success, value);
        case ChangeTask(Set(key, value)) =>
          var success := SetVal(key, value);
          a := Answer(success, []);
        case ChangeTask(Del(key)) =>
          var success := DelVal(key);
          a := Answer(success, []);
      }
    }

    /** The store's thread, over files that other runs, restarts and passes left: every
        task is answered as by a plain map that starts with what they keep. */
    method DiskIO(datas: seq<seq<byte>>, ts: seq<Task>, ghost files: Files) returns (answers: seq<Answer>)
      requires fileList == [] && index == map[] && OnDisk(datas, files)
      modifies this
      ensures Valid() && contents == PlainAt(KeptIn(files), ts, |ts|)
      ensures Answered(KeptIn(files), ts, |ts|, answers)
      ensures RightAnswers(KeptIn(files), ts, answers) && RightMap(KeptIn(files), ts, contents)
      ensures state.files == FilesAt(files, ts, |ts|) && OnDisk(Datas(state.files, frozen), state.files)
      ensures forall n :: n in fileList ==> fresh(n)
    {
      Restart(datas, files);
      assert forall j :: 0 <= j < |fileList| ==> fileList[j] in fileList;
      answers := Serve(ts);
      ServedOnDisk(datas, files, ts);
      RunIsRight(KeptIn(files), ts, answers);
    }

    /** The thread's loop. */
    method Serve(ts: seq<Task>) returns (answers: seq<Answer>)
      requires Valid()
      modifies this, fileList
      ensures Valid() && Answered(old(contents), ts, |ts|, answers)
      ensures contents == PlainAt(old(contents), ts, |ts|) && state.files == FilesAt(old(state.files), ts, |ts|)
      ensures frozen == old(frozen)
      ensures forall n :: n in fileList ==> n in old(fileList) || fresh(n)
    {
      answers := [];
      ghost var m, files := contents, state.files;
      for i := 0 to |ts|
        invariant Valid() && forall n :: n in fileList ==> n in old(fileList) || fresh(n)
        invariant Answered(m, ts, i, answers)
        invariant contents == PlainAt(m, ts, i) && state.files == FilesAt(files, ts, i)
        invariant frozen == old(frozen)
      {
        assert forall j :: 0 <= j < |fileList| ==> fileList[j] in fileList;
        OneMoreAnswered(m, ts, i, answers);
        var a := ProcessTask(ts[i]);
        answers := answers + [a];
      }
    }
  }
}
