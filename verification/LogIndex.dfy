/** The data files of the second server as a history of operations makes them,
    and the in-memory index that points into them. */
module LogIndex {
  import opened Bytes
  import opened RecordLog

  const OFF_LIMIT: nat := 10 * 1024 * 1024

  datatype Op = Set(key: Text, value: Text) | Del(key: Text)

  /** Where a record starts. */
  datatype Pos = Pos(file: nat, offset: nat)

  type Files = seq<seq<Record>>

  type Index = map<Text, Pos>

  datatype State = State(files: Files, index: Index)

  function RecordOf(op: Op): (r: Record) {
    match op
    case Set(key, value) => Record(0, key, value)
    case Del(key) => Record(0, key, [])
  }

  /** The files with one to append to: the last one, or a new one if there is
      none or the last one is over the limit. */
  function Opened(files: Files): (r: Files)
    ensures |r| >= 1
  {
    if files == [] || |Log(files[|files| - 1])| > OFF_LIMIT then files + [[]] else files
  }

  /** Where the next record goes. */
  function End(files: Files): (p: Pos)
    requires |files| >= 1
  {
    Pos(|files| - 1, |Log(files[|files| - 1])|)
  }

  function Appended(files: Files, r: Record): (fs: Files)
    requires |files| >= 1
    ensures |fs| == |files|
  {
    files[..|files| - 1] + [files[|files| - 1] + [r]]
  }

  function After(s: State, op: Op): (s': State) {
    var files := Opened(s.files);
    var index := match op
      case Set(key, _) => s.index[key := End(files)]
      case Del(key) => s.index - {key};
    State(Appended(files, RecordOf(op)), index)
  }

  function Run(h: seq<Op>): (s: State) {
    if h == [] then State([], map[]) else After(Run(h[..|h| - 1]), h[|h| - 1])
  }

  /** A file is opened only when the last one is over the limit, and then at once:
      every file but the last is longer than 10 MB, and no file was when its last
      record went in. */
  ghost predicate Filled(files: Files) {
    && (forall f :: 0 <= f < |files| - 1 ==> OverLimit(files[f]))
    && (forall f :: 0 <= f < |files| ==> files[f] != [] && FitBeforeLast(files[f]))
  }

  ghost predicate OverLimit(rs: seq<Record>) { |Log(rs)| > 10485760 }

  ghost predicate FitBeforeLast(rs: seq<Record>) { rs != [] ==> |Log(rs[..|rs| - 1])| <= 10485760 }

  lemma {:induction false} OpenedWhen(files: Files)
    ensures Opened(files) == if files == [] || OverLimit(files[|files| - 1]) then files + [[]] else files
    ensures !OverLimit(Opened(files)[|Opened(files)| - 1])
  {
  }

  lemma {:induction false} FitsOneMore(rs: seq<Record>, r: Record)
    requires !OverLimit(rs)
    ensures FitBeforeLast(rs + [r])
  {
    assert (rs + [r])[..|rs|] == rs;
  }

  lemma {:induction false} OneMoreFilled(files: Files, r: Record)
    requires Filled(files)
    ensures Filled(Appended(Opened(files), r))
  {
    OpenedWhen(files);
    FilledThen(files, Opened(files), r);
  }

  lemma {:induction false} FilledThen(files: Files, open: Files, r: Record)
    requires Filled(files) && |open| >= 1 && !OverLimit(open[|open| - 1])
    requires open == files || (open == files + [[]] && (files != [] ==> OverLimit(files[|files| - 1])))
    ensures Filled(Appended(open, r))
  {
    FitsOneMore(open[|open| - 1], r);
    var more := Appended(open, r);
    forall f | 0 <= f < |more| - 1 ensures more[f] == files[f] && OverLimit(more[f]) {
      assert more[f] == open[f] == files[f];
    }
  }

  lemma {:induction false} RunFilled(h: seq<Op>)
    ensures Filled(Run(h).files)
  {
    if h != [] {
      RunFilled(h[..|h| - 1]);
      OneMoreFilled(Run(h[..|h| - 1]).files, RecordOf(h[|h| - 1]));
    }
  }

  // ---- look-up agrees with a plain map ----

  type Plain = map<Text, Text>

  function PlainAfter(m: Plain, op: Op): (r: Plain) {
    match op
    case Set(key, value) => m[key := value]
    case Del(key) => m - {key}
  }

  /** What becomes of a plain map. */
  function PlainRun(m: Plain, h: seq<Op>): (r: Plain) {
    if h == [] then m else PlainAfter(PlainRun(m, h[..|h| - 1]), h[|h| - 1])
  }

  lemma {:induction false} OneMoreOp(m: Plain, h: seq<Op>, op: Op)
    ensures Run(h + [op]) == After(Run(h), op)
    ensures PlainRun(m, h + [op]) == PlainAfter(PlainRun(m, h), op)
  {
    assert (h + [op])[..|h|] == h;
  }

  /** What is read at a position. */
  function Lookup(files: Files, p: Pos): (g: Got) {
    if p.file < |files| then ReadAt(Log(files[p.file]), p.offset) else Eof
  }

  /** Every entry addresses a record of its key, with the key's value. */
  ghost predicate Addresses(s: State, m: Plain) {
    && s.index.Keys == m.Keys
    && forall k :: k in m ==> ReadsAs(s, k, m[k])
  }

  /** The key's entry addresses a record of the key with this value. */
  ghost predicate ReadsAs(s: State, key: Text, value: Text) {
    key in s.index && Lookup(s.files, s.index[key]) == Got(Record(0, key, value), Size(Record(0, key, value)))
  }

  lemma LookupStable(files: Files, r: Record, p: Pos)
    requires Lookup(files, p).Got?
    ensures Lookup(Appended(Opened(files), r), p) == Lookup(files, p)
  {
    var fs := Opened(files);
    assert fs[p.file] == files[p.file];
    if p.file == |fs| - 1 {
      LogAppend(files[p.file], r);
      ReadStable(Log(files[p.file]), Encode(r), p.offset);
    } else {
      assert Appended(fs, r)[p.file] == files[p.file];
    }
  }

  lemma LookupNew(files: Files, r: Record)
    requires |files| >= 1
    ensures Lookup(Appended(files, r), End(files)) == Got(r, Size(r))
  {
    var last := files[|files| - 1];
    LogAppend(last, r);
    ReadWritten(Log(last), r, []);
    assert Log(last + [r]) == Log(last) + Encode(r) + [];
  }

  lemma AfterAddresses(s: State, m: Plain, op: Op)
    requires Addresses(s, m)
    ensures Addresses(After(s, op), PlainAfter(m, op))
  {
    var s', m' := After(s, op), PlainAfter(m, op);
    forall k | k in m' ensures ReadsAs(s', k, m'[k]) {
      assert k in m ==> ReadsAs(s, k, m[k]);
      if op.Set? && k == op.key {
        LookupNew(Opened(s.files), RecordOf(op));
      } else {
        LookupStable(s.files, RecordOf(op), s.index[k]);
      }
    }
  }

  /** After any history the index reads back exactly the plain map. */
  lemma {:induction false} RunAddresses(h: seq<Op>)
    ensures Addresses(Run(h), PlainRun(map[], h))
  {
    if h != [] {
      RunAddresses(h[..|h| - 1]);
      AfterAddresses(Run(h[..|h| - 1]), PlainRun(map[], h[..|h| - 1]), h[|h| - 1]);
    }
  }

  // ---- entries address the latest record ----

  /** Where record `i` of a file starts. */
  function PosOf(files: Files, f: nat, i: nat): (p: Pos)
    requires f < |files| && i <= |files[f]|
  {
    Pos(f, |Log(files[f][..i])|)
  }

  predicate Precedes(p: Pos, q: Pos) {
    p.file < q.file || (p.file == q.file && p.offset < q.offset)
  }

  /** No record of `key` comes after position `p`. */
  ghost predicate Latest(files: Files, p: Pos, key: Text) {
    forall f, i :: 0 <= f < |files| && 0 <= i < |files[f]| && files[f][i].key == key ==> !Precedes(p, PosOf(files, f, i))
  }

  lemma {:induction false} LogPrefix(rs: seq<Record>, i: nat)
    requires i <= |rs|
    ensures |Log(rs[..i])| <= |Log(rs)|
    ensures i < |rs| ==> |Log(rs[..i])| < |Log(rs)|
  {
    if i == |rs| {
      assert rs[..i] == rs;
    } else {
      LogPrefix(rs[..|rs| - 1], i);
      assert rs[..|rs| - 1][..i] == rs[..i];
    }
  }

  /** Records already there come before the place of the next one. */
  lemma EndIsLatest(files: Files, r: Record)
    requires |files| >= 1
    ensures Latest(Appended(files, r), End(files), r.key)
  {
    var fs: Files := Appended(files, r);
    var end := End(files);
    forall f, i | 0 <= f < |fs| && 0 <= i < |fs[f]| ensures !Precedes(end, PosOf(fs, f, i)) {
      if f == |files| - 1 {
        assert fs[f][..i] == files[f][..i];
        LogPrefix(files[f], i);
      }
    }
  }

  lemma LatestKept(files: Files, r: Record, p: Pos, key: Text)
    requires |files| >= 1 && Latest(files, p, key) && key != r.key
    ensures Latest(Appended(files, r), p, key)
  {
    var fs: Files := Appended(files, r);
    forall f, i | 0 <= f < |fs| && 0 <= i < |fs[f]| && fs[f][i].key == key ensures !Precedes(p, PosOf(fs, f, i)) {
      assert i < |files[f]| && files[f][i].key == key;
      assert fs[f][..i] == files[f][..i];
      assert PosOf(fs, f, i) == PosOf(files, f, i);
    }
  }

  lemma LatestOpened(files: Files, p: Pos, key: Text)
    requires Latest(files, p, key)
    ensures Latest(Opened(files), p, key)
  {
    var fs: Files := Opened(files);
    forall f, i | 0 <= f < |fs| && 0 <= i < |fs[f]| && fs[f][i].key == key ensures !Precedes(p, PosOf(fs, f, i)) {
      assert f < |files| && fs[f] == files[f];
      assert PosOf(fs, f, i) == PosOf(files, f, i);
    }
  }

  /** After any history every entry addresses its key's latest record. */
  lemma {:induction false} EntriesAreLatest(h: seq<Op>, key: Text)
    requires key in Run(h).index
    ensures Latest(Run(h).files, Run(h).index[key], key)
  {
    var s, op := Run(h[..|h| - 1]), h[|h| - 1];
    if key == op.key {
      EndIsLatest(Opened(s.files), RecordOf(op));
    } else {
      EntriesAreLatest(h[..|h| - 1], key);
      LatestOpened(s.files, s.index[key], key);
      LatestKept(Opened(s.files), RecordOf(op), s.index[key], key);
    }
  }
}
