/** Files as a start of the second server may find them: whole records, perhaps
    followed by a record that was cut short, and what such files answer. */
module DiskFiles {
  import opened Bytes
  import opened RecordLog
  import opened LogIndex
  import opened LogRestart

  // ---- what the files keep ----

  /** Each key with a record that has a value, and the value of the last such one. */
  function KeptIn(files: Files): (m: Plain) {
    var index := Rebuilt(files);
    map k | k in index && Lookup(files, index[k]).Got? :: Lookup(files, index[k]).record.value
  }

  /** The store writes 0 for the checksum. */
  predicate FromStore(files: Files) {
    forall f, i :: 0 <= f < |files| && 0 <= i < |files[f]| ==> files[f][i].crc == 0
  }

  lemma RecordReads(files: Files, f: nat, i: nat)
    requires f < |files| && i < |files[f]|
    ensures Lookup(files, PosOf(files, f, i)) == Got(files[f][i], Size(files[f][i]))
  {
    WalkLog(files[f], i);
  }

  /** The rebuilt index reads back exactly what the files keep. */
  lemma {:induction false} KeptInAddresses(files: Files)
    requires FromStore(files)
    ensures Addresses(RestartState(files), KeptIn(files))
  {
    forall k | k in Rebuilt(files)
      ensures var g := Lookup(files, Rebuilt(files)[k]);
        g.Got? && g.record.crc == 0 && g.record.key == k && g.n == Size(g.record)
    {
      RebuiltFindsLast(files, k);
      var f, i :| StoredAt(files, f, i, k) && Rebuilt(files)[k] == PosOf(files, f, i);
      RecordReads(files, f, i);
    }
  }

  /** No record of the key with a value comes after record `i` of file `f`. */
  ghost predicate LastStoredAt(files: Files, f: nat, i: nat, key: Text) {
    && StoredAt(files, f, i, key)
    && forall g, j :: StoredAt(files, g, j, key) ==> !Precedes(PosOf(files, f, i), PosOf(files, g, j))
  }

  lemma {:induction false} OneLast(files: Files, f: nat, i: nat, g: nat, j: nat, key: Text)
    requires LastStoredAt(files, f, i, key) && LastStoredAt(files, g, j, key)
    ensures f == g && i == j
  {
    assert StoredAt(files, f, i, key) && StoredAt(files, g, j, key);
    if f == g && i < j { LogGrows(files[f], i, j); }
    if f == g && j < i { LogGrows(files[f], j, i); }
  }

  lemma {:induction false} LogGrows(rs: seq<Record>, i: nat, j: nat)
    requires i < j <= |rs|
    ensures |Log(rs[..i])| < |Log(rs[..j])|
  {
    LogPrefix(rs[..j], i);
    assert rs[..j][..i] == rs[..i];
  }

  /** A key is kept exactly if some record has it with a value, and its value is
      the last one. */
  lemma {:induction false} KeptInIsLast(files: Files, key: Text)
    ensures key in KeptIn(files) <==> exists f, i :: StoredAt(files, f, i, key)
    ensures forall f: nat, i: nat :: LastStoredAt(files, f, i, key) ==> key in KeptIn(files) && KeptIn(files)[key] == files[f][i].value
  {
    RebuiltFindsLast(files, key);
    if key in Rebuilt(files) {
      var f, i :| StoredAt(files, f, i, key) && Rebuilt(files)[key] == PosOf(files, f, i);
      RecordReads(files, f, i);
      forall g: nat, j: nat | LastStoredAt(files, g, j, key) ensures g == f && j == i {
        OneLast(files, f, i, g, j, key);
      }
    }
  }

  // ---- the bytes on disk ----

  /** The records are at the start of the file, and walking it meets no others. */
  ghost predicate Intact(data: seq<byte>, rs: seq<Record>) {
    Log(rs) <= data && Parses(data, rs)
  }

  /** The files as bytes. The last one, which is appended to, ends with its last
      record. */
  ghost predicate OnDisk(datas: seq<seq<byte>>, files: Files) {
    FromStore(files) && AllIntact(datas, files) && LastIsWhole(datas, files)
  }

  ghost predicate AllIntact(datas: seq<seq<byte>>, files: Files) {
    |datas| == |files| && forall i :: 0 <= i < |files| ==> Intact(datas[i], files[i])
  }

  ghost predicate LastIsWhole(datas: seq<seq<byte>>, files: Files) {
    |datas| == |files| && (files != [] ==> datas[|files| - 1] == Log(files[|files| - 1]))
  }

  lemma {:induction false} OnDiskStarts(datas: seq<seq<byte>>, files: Files)
    requires OnDisk(datas, files)
    ensures |datas| == |files| && forall i :: 0 <= i < |files| ==> Log(files[i]) <= datas[i]
    ensures files != [] ==> datas[|files| - 1] == Log(files[|files| - 1])
  {
    forall i | 0 <= i < |files| ensures Log(files[i]) <= datas[i] { assert Intact(datas[i], files[i]); }
  }

  lemma {:induction false} IntactLog(rs: seq<Record>)
    ensures Intact(Log(rs), rs)
  {
    ParsesLog(rs);
  }

  /** What the walk meets is what was written. */
  lemma {:induction false} FoundOnDisk(datas: seq<seq<byte>>, files: Files, found: Files)
    requires OnDisk(datas, files) && FilesIn(datas, found) && |found| == |datas|
    ensures found == files
  {
    forall i | 0 <= i < |files| ensures found[i] == files[i] {
      ParsesOnce(datas[i], found[i], files[i]);
    }
  }

  /** A record can be read from the file as from the log at its start. */
  lemma {:induction false} IntactReads(data: seq<byte>, rs: seq<Record>, offset: nat)
    requires Log(rs) <= data && ReadAt(Log(rs), offset).Got?
    ensures ReadAt(data, offset) == ReadAt(Log(rs), offset)
  {
    ReadFromStart(data, Log(rs), offset);
  }

  lemma ReadFromStart(data: seq<byte>, log: seq<byte>, offset: nat)
    requires log <= data && ReadAt(log, offset).Got?
    ensures ReadAt(data, offset) == ReadAt(log, offset)
  {
    var rest := data[|log|..];
    assert log + rest == data;
    ReadStable(log, rest, offset);
  }

  // ---- the files of a history ----

  lemma {:induction false} HistoryFromStore(h: seq<Op>)
    ensures FromStore(Run(h).files)
  {
    if h != [] {
      HistoryFromStore(h[..|h| - 1]);
      AppendFromStore(Run(h[..|h| - 1]).files, h[|h| - 1]);
    }
  }

  lemma AppendFromStore(files: Files, op: Op)
    requires FromStore(files)
    ensures FromStore(Appended(Opened(files), RecordOf(op)))
  {
  }

  /** The files that a history leaves. */
  lemma {:induction false} HistoryOnDisk(datas: seq<seq<byte>>, h: seq<Op>)
    requires DataOf(datas, Run(h).files)
    ensures OnDisk(datas, Run(h).files)
  {
    HistoryFromStore(h);
    var files := Run(h).files;
    forall i | 0 <= i < |files| ensures Intact(datas[i], files[i]) { IntactLog(files[i]); }
  }

  /** They keep what the sets of values that are not empty made. */
  lemma {:induction false} HistoryKeeps(h: seq<Op>)
    ensures KeptIn(Run(h).files) == Kept(h)
  {
    HistoryFromStore(h);
    KeptInAddresses(Run(h).files);
    RestartAddresses(h);
    OneMap(RestartState(Run(h).files), KeptIn(Run(h).files), Kept(h));
  }

  lemma OneMap(s: State, m: Plain, m': Plain)
    requires Addresses(s, m) && Addresses(s, m')
    ensures m == m'
  {
    forall k | k in m ensures m[k] == m'[k] {
      assert k in m' && Lookup(s.files, s.index[k]).record == Record(0, k, m[k]);
    }
  }

  // ---- a file that was cut ----

  /** A record of which only a part is there is not read. */
  lemma {:induction false} PartIsNotRead(pre: seq<byte>, r: Record, n: nat)
    requires n < Size(r)
    ensures !ReadAt(pre + Encode(r)[..n], |pre|).Got?
  {
    if n >= HEADER {
      var data := pre + Encode(r)[..n];
      EncodedParts(pre + Encode(r), pre, r, []);
      assert pre + Encode(r) + [] == pre + Encode(r);
      SameStart(data, pre + Encode(r), |pre|);
      Int32RoundTrip(|r.key| as int32);
      Int32RoundTrip(|r.value| as int32);
    }
  }

  lemma SameStart(data: seq<byte>, all: seq<byte>, at: nat)
    requires data <= all && at + HEADER <= |data|
    ensures data[at..at + 4] == all[at..at + 4] && data[at + 4..at + 8] == all[at + 4..at + 8]
    ensures data[at + 8..at + 12] == all[at + 8..at + 12]
  {
  }

  /** How many records are whole in the first `total` bytes. */
  function WholeIn(rs: seq<Record>, total: nat): (k: nat)
    ensures k <= |rs|
  {
    if rs == [] || |Log(rs)| <= total then |rs| else WholeIn(rs[..|rs| - 1], total)
  }

  lemma {:induction false} WholeInExactly(rs: seq<Record>, total: nat)
    ensures var k := WholeIn(rs, total);
      |Log(rs[..k])| <= total && (k < |rs| ==> total < |Log(rs[..k + 1])|)
  {
    if rs != [] && |Log(rs)| > total {
      var rest := rs[..|rs| - 1];
      WholeInExactly(rest, total);
      SamePrefixes(rs, WholeIn(rest, total));
    } else {
      assert rs[..|rs|] == rs;
    }
  }

  lemma SamePrefixes<A>(s: seq<A>, k: nat)
    requires k < |s|
    ensures s[..|s| - 1][..k] == s[..k]
    ensures k + 1 < |s| ==> s[..|s| - 1][..k + 1] == s[..k + 1]
    ensures k + 1 == |s| ==> s[..k + 1] == s
  {
  }

  /** A cut file holds the records that are whole, and no others are met in it. */
  lemma {:induction false} CutIntact(rs: seq<Record>, total: nat)
    requires total <= |Log(rs)|
    ensures Intact(Log(rs)[..total], rs[..WholeIn(rs, total)])
    decreases |rs|
  {
    if |Log(rs)| <= total {
      assert Log(rs)[..total] == Log(rs) && rs[..|rs|] == rs;
      IntactLog(rs);
    } else {
      var rest, r := rs[..|rs| - 1], rs[|rs| - 1];
      if total <= |Log(rest)| {
        CutIntact(rest, total);
        TakeOfStart(Log(rest), Encode(r), total);
        assert rest[..WholeIn(rest, total)] == rs[..WholeIn(rs, total)];
      } else {
        CutInLast(rest, r, total);
        assert rs[..WholeIn(rs, total)] == rest;
      }
    }
  }

  lemma TakeOfStart<A>(a: seq<A>, b: seq<A>, n: nat)
    requires n <= |a|
    ensures (a + b)[..n] == a[..n]
  {
  }

  lemma {:induction false} CutInLast(rest: seq<Record>, r: Record, total: nat)
    requires |Log(rest)| < total < |Log(rest)| + Size(r)
    ensures Intact((Log(rest) + Encode(r))[..total], rest) && WholeIn(rest, total) == |rest|
  {
    PartAfterLog(rest, r, total - |Log(rest)|);
    assert (Log(rest) + Encode(r))[..total] == Log(rest) + Encode(r)[..total - |Log(rest)|];
  }

  lemma {:induction false} PartAfterLog(rs: seq<Record>, r: Record, n: nat)
    requires n < Size(r)
    ensures Intact(Log(rs) + Encode(r)[..n], rs)
  {
    var data := Log(rs) + Encode(r)[..n];
    PartIsNotRead(Log(rs), r, n);
    forall i | 0 <= i < |rs| ensures ReadAt(data, |Log(rs[..i])|) == Got(rs[i], Size(rs[i])) {
      WalkLog(rs, i);
      ReadStable(Log(rs), Encode(r)[..n], |Log(rs[..i])|);
    }
  }
}
