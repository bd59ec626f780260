/** An array of records with tombstones: what the second v1 index keeps on disk,
    what a restart reads back, and what compaction leaves. */
module RecordArray {
  import opened FirstRecord
  import opened SlotCache

  /** A record; `flag` is off once it has expired. A record of zero bytes has
      empty strings and is off. */
  datatype Record = Record(key: string, value: string, flag: bool)

  const BLANK: Record := Record("", "", false)

  /** A valid record belongs to the entry of its key. */
  ghost predicate Owned(store: seq<Record>, kv: Index, i: nat) {
    i < |store| && (store[i].flag ==> store[i].key in kv && kv[store[i].key].at == i)
  }

  /** Each live key's entry names a record of its own, the only valid one with
      that key; only record 0 may have expired by mistake. Every slot from `size`
      up is blank. */
  ghost predicate Table(store: seq<Record>, size: nat, kv: Index) {
    && size <= |store|
    && (forall k :: k in kv ==>
          kv[k].at < size && store[kv[k].at].key == k && (store[kv[k].at].flag || kv[k].at == 0))
    && (forall i :: 0 <= i < size ==> Owned(store, kv, i))
    && (forall i :: size <= i < |store| ==> store[i] == BLANK)
  }

  /** The live keys whose record has expired by mistake. */
  ghost function Lost(store: seq<Record>, kv: Index): (lost: set<string>) {
    set k | k in kv && kv[k].at < |store| && !store[kv[k].at].flag
  }

  /** No record has an empty key. */
  ghost predicate Named(store: seq<Record>, size: nat) {
    size <= |store| && forall i :: 0 <= i < size ==> store[i].key != ""
  }

  /** The plain map a table stands for. */
  function Contents(store: seq<Record>, kv: Index): (m: map<string, string>) {
    map k | k in kv && kv[k].at < |store| :: store[kv[k].at].value
  }

  lemma ContentsOf(store: seq<Record>, size: nat, kv: Index)
    requires Table(store, size, kv)
    ensures Contents(store, kv).Keys == kv.Keys
    ensures forall k :: k in kv ==> Contents(store, kv)[k] == store[kv[k].at].value
  {
  }

  // ---- the operations on a table ----

  lemma DoubledTable(store: seq<Record>, size: nat, kv: Index, n: nat)
    requires Table(store, size, kv)
    ensures Table(store + seq(n, _ => BLANK), size, kv)
    ensures Contents(store + seq(n, _ => BLANK), kv) == Contents(store, kv)
    ensures Named(store, size) ==> Named(store + seq(n, _ => BLANK), size)
  {
    var more := store + seq(n, _ => BLANK);
    forall i | 0 <= i < size ensures Owned(more, kv, i) { assert Owned(store, kv, i); }
  }

  function Expire(store: seq<Record>, i: nat): (s: seq<Record>)
    requires i < |store|
  {
    store[i := store[i].(flag := false)]
  }

  lemma ExpiredTable(store: seq<Record>, size: nat, kv: Index, kv': Index, key: string)
    requires Table(store, size, kv) && key in kv
    requires kv'.Keys == kv.Keys - {key} && forall k :: k in kv' ==> kv'[k].at == kv[k].at
    ensures Table(Expire(store, kv[key].at), size, kv')
    ensures Contents(Expire(store, kv[key].at), kv') == Contents(store, kv) - {key}
    ensures Named(store, size) ==> Named(Expire(store, kv[key].at), size)
    ensures FirstOf(Expire(store, kv[key].at), size, kv') == Touched(FirstOf(store, size, kv), key)
  {
    var left := Expire(store, kv[key].at);
    forall i | 0 <= i < size ensures Owned(left, kv', i) { assert Owned(store, kv, i); }
    FirstExpired(store, size, kv, kv', key);
  }

  lemma FirstExpired(store: seq<Record>, size: nat, kv: Index, kv': Index, key: string)
    requires size <= |store| && key in kv && kv[key].at < size && store[kv[key].at].key == key
    requires kv'.Keys == kv.Keys - {key} && forall k :: k in kv' ==> kv'[k].at == kv[k].at
    ensures FirstOf(Expire(store, kv[key].at), size, kv') == Touched(FirstOf(store, size, kv), key)
  {
  }

  /** Record 0 expires for a key that is not there: the key that has record 0 is
      lost, if there is one. */
  lemma StrayExpire(store: seq<Record>, size: nat, kv: Index, kv': Index)
    requires Table(store, size, kv) && |store| > 0
    requires kv'.Keys == kv.Keys && forall k :: k in kv ==> kv'[k].at == kv[k].at
    ensures Table(Expire(store, 0), size, kv')
    ensures Contents(Expire(store, 0), kv') == Contents(store, kv)
    ensures Lost(Expire(store, 0), kv') == Lost(store, kv) + set k | k in kv && kv[k].at == 0
    ensures Named(store, size) ==> Named(Expire(store, 0), size)
    ensures FirstOf(Expire(store, 0), size, kv') == Expired(FirstOf(store, size, kv))
  {
    forall j | 0 <= j < size ensures Owned(Expire(store, 0), kv', j) { assert Owned(store, kv, j); }
    assert size == 0 ==> store[0] == BLANK;
  }

  lemma AppendedTable(store: seq<Record>, size: nat, kv: Index, key: string, value: string, node: nat)
    requires Table(store, size, kv) && key !in kv && size < |store|
    ensures Table(store[size := Record(key, value, true)], size + 1, kv[key := Entry(-1, size, node)])
    ensures Contents(store[size := Record(key, value, true)], kv[key := Entry(-1, size, node)])
         == Contents(store, kv)[key := value]
    ensures Named(store, size) && key != "" ==> Named(store[size := Record(key, value, true)], size + 1)
    ensures FirstOf(store[size := Record(key, value, true)], size + 1, kv[key := Entry(-1, size, node)])
         == Added(FirstOf(store, size, kv), key)
  {
    var more, kv' := store[size := Record(key, value, true)], kv[key := Entry(-1, size, node)];
    forall i | 0 <= i < size + 1 ensures Owned(more, kv', i) { assert i < size ==> Owned(store, kv, i); }
  }

  // ---- record 0 ----

  ghost function FirstOf(store: seq<Record>, size: nat, kv: Index): (f: First) {
    if size == 0 || |store| == 0 then NoRecord
    else if store[0].key in kv && kv[store[0].key].at == 0 then Held(store[0].key, !store[0].flag)
    else Gone
  }

  /** The only key that can be lost is the one that has record 0. */
  lemma LostIsFirst(store: seq<Record>, size: nat, kv: Index)
    requires Table(store, size, kv)
    ensures Lost(store, kv) == LostOf(FirstOf(store, size, kv))
  {
  }

  // ---- restart ----

  /** What the scan of Start finds: it stops at the first blank record and
      remembers each key's last valid record before that. */
  ghost predicate IsScan(store: seq<Record>, size: nat, kv: Index) {
    && size <= |store|
    && (forall i :: 0 <= i < size ==> store[i] != BLANK)
    && (size < |store| ==> store[size] == BLANK)
    && (forall k :: k in kv ==> kv[k].at < size && store[kv[k].at].key == k && store[kv[k].at].flag)
    && (forall i :: 0 <= i < size && store[i].flag ==> store[i].key in kv && i <= kv[store[i].key].at)
  }

  ghost predicate NoBlankBelow(store: seq<Record>, size: nat)
    requires size <= |store|
  {
    forall i :: 0 <= i < size ==> store[i] != BLANK
  }

  /** A record is blank when all its bytes are zero. */
  lemma BlankIsZero(r: Record)
    ensures r == BLANK <==> r.key == "" && r.value == "" && !r.flag
  {
  }

  /** The scan finds the same size exactly when no expired record below `size` has
      lost all its bytes; and then every key that is not lost, where it was. */
  lemma ScanRebuildsTable(store: seq<Record>, size: nat, kv: Index, size': nat, kv': Index)
    requires Table(store, size, kv) && IsScan(store, size', kv')
    ensures size' == size <==> NoBlankBelow(store, size)
    ensures size' == size ==>
      kv'.Keys == kv.Keys - Lost(store, kv) && forall k :: k in kv' ==> kv'[k].at == kv[k].at
    ensures size' == size ==>
      Table(store, size, kv') && Lost(store, kv') == {} && Contents(store, kv') == Contents(store, kv) - Lost(store, kv)
  {
    assert size < |store| ==> store[size] == BLANK;
    if size' == size {
      forall k | k in kv' ensures k in kv && kv'[k].at == kv[k].at {
        assert Owned(store, kv, kv'[k].at);
      }
      forall k | k in kv && store[kv[k].at].flag ensures k in kv' {
        assert store[kv[k].at].key == k;
      }
      forall i | 0 <= i < size ensures Owned(store, kv', i) { assert Owned(store, kv, i); }
    }
  }

  /** A blank record below `size` hides all records after it. */
  lemma BlankRecordHidesRest() returns (store: seq<Record>, kv: Index)
    ensures store == [BLANK, Record("k", "v", true)] && kv == map["k" := Entry(-1, 1, 0)]
    ensures Table(store, 2, kv) && Contents(store, kv) == map["k" := "v"]
    ensures forall size, kv': Index :: IsScan(store, size, kv') ==> size == 0 && kv' == map[]
  {
    store, kv := [BLANK, Record("k", "v", true)], map["k" := Entry(-1, 1, 0)];
    assert store[1].key == "k";
    assert Owned(store, kv, 0) && Owned(store, kv, 1);
    forall size, kv': Index | IsScan(store, size, kv') ensures size == 0 && kv' == map[] {
      assert store[0] == BLANK;
      assert forall k :: k in kv' ==> kv'[k].at < size;
    }
  }

  /** Keys that are never empty leave no blank record below `size`. */
  lemma NamedIsNotBlank(store: seq<Record>, size: nat)
    requires Named(store, size)
    ensures NoBlankBelow(store, size)
  {
  }

  // ---- compaction ----

  function ValidRecords(s: seq<Record>): (r: seq<Record>)
    ensures |r| <= |s|
  {
    if s == [] then []
    else if s[|s| - 1].flag then ValidRecords(s[..|s| - 1]) + [s[|s| - 1]] else ValidRecords(s[..|s| - 1])
  }

  /** Where the record at `i` goes. */
  lemma {:induction false} ValidKeeps(s: seq<Record>, i: nat)
    requires i < |s| && s[i].flag
    ensures |ValidRecords(s[..i])| < |ValidRecords(s)| && ValidRecords(s)[|ValidRecords(s[..i])|] == s[i]
  {
    if i == |s| - 1 {
    } else {
      ValidKeeps(s[..|s| - 1], i);
      assert s[..|s| - 1][..i] == s[..i];
    }
  }

  lemma {:induction false} ValidFrom(s: seq<Record>, j: nat) returns (i: nat)
    requires j < |ValidRecords(s)|
    ensures i < |s| && s[i].flag && |ValidRecords(s[..i])| == j && ValidRecords(s)[j] == s[i]
  {
    if s[|s| - 1].flag && j == |ValidRecords(s[..|s| - 1])| {
      i := |s| - 1;
    } else {
      i := ValidFrom(s[..|s| - 1], j);
      assert s[..|s| - 1][..i] == s[..i];
    }
  }

  /** The entries for a sequence of records with different keys. */
  ghost predicate IndexOf(recs: seq<Record>, kv: Index) {
    && (forall k :: k in kv ==> kv[k].at < |recs| && recs[kv[k].at].key == k)
    && (forall i :: 0 <= i < |recs| ==> recs[i].key in kv && kv[recs[i].key].at == i)
  }

  /** The valid records of the first `size`, then blanks. */
  function Packed(store: seq<Record>, size: nat): (s: seq<Record>)
    requires size <= |store|
  {
    var recs := ValidRecords(store[..size]);
    recs + seq(|store| - |recs|, _ => BLANK)
  }

  lemma PackedFrom(store: seq<Record>, size: nat, kv: Index, j: nat)
    requires Table(store, size, kv) && j < |ValidRecords(store[..size])|
    ensures var r := ValidRecords(store[..size])[j]; r.flag && r.key in kv && store[kv[r.key].at] == r
  {
    var i := ValidFrom(store[..size], j);
    assert store[..size][i] == store[i] && Owned(store, kv, i);
  }

  lemma PackedTo(store: seq<Record>, size: nat, kv: Index, kv': Index, k: string)
    requires Table(store, size, kv) && k in kv && store[kv[k].at].flag && IndexOf(ValidRecords(store[..size]), kv')
    ensures k in kv' && ValidRecords(store[..size])[kv'[k].at] == store[kv[k].at]
  {
    var i := kv[k].at;
    assert store[..size][i] == store[i];
    ValidKeeps(store[..size], i);
  }

  lemma PackedIsTable(recs: seq<Record>, n: nat, kv: Index)
    requires IndexOf(recs, kv) && forall j :: 0 <= j < |recs| ==> recs[j].flag
    ensures Table(recs + seq(n, _ => BLANK), |recs|, kv) && Lost(recs + seq(n, _ => BLANK), kv) == {}
  {
    var store := recs + seq(n, _ => BLANK);
    forall j | 0 <= j < |recs| ensures Owned(store, kv, j) { assert recs[j].key in kv; }
  }

  /** Packing the valid records of a table keeps its contents, but for a lost key. */
  lemma CompactedTable(store: seq<Record>, size: nat, kv: Index, store': seq<Record>, kv': Index)
    requires Table(store, size, kv) && store' == Packed(store, size) && IndexOf(ValidRecords(store[..size]), kv')
    ensures Table(store', |ValidRecords(store[..size])|, kv') && Lost(store', kv') == {}
    ensures Contents(store', kv') == Contents(store, kv) - Lost(store, kv)
  {
    var recs := ValidRecords(store[..size]);
    forall j | 0 <= j < |recs| ensures recs[j].flag && recs[j].key in kv && store[kv[recs[j].key].at] == recs[j] {
      PackedFrom(store, size, kv, j);
    }
    PackedIsTable(recs, |store| - |recs|, kv');
    forall k | k in kv && store[kv[k].at].flag ensures k in kv' && recs[kv'[k].at] == store[kv[k].at] {
      PackedTo(store, size, kv, kv', k);
    }
    forall k | k in kv' ensures k in kv && store[kv[k].at].flag {
      assert recs[kv'[k].at].key == k;
    }
    SameButLost(store, size, kv, store', kv');
  }

  lemma SameButLost(store: seq<Record>, size: nat, kv: Index, store': seq<Record>, kv': Index)
    requires Table(store, size, kv) && forall k :: k in kv' ==> kv'[k].at < |store'|
    requires forall k :: k in kv' <==> k in kv && store[kv[k].at].flag
    requires forall k :: k in kv' ==> store'[kv'[k].at] == store[kv[k].at]
    ensures Contents(store', kv') == Contents(store, kv) - Lost(store, kv)
  {
  }

  /** Entries without slots, made before node `next`. */
  ghost predicate NewlyMade(kv: Index, next: nat) { forall k :: k in kv ==> kv[k].slot == -1 && kv[k].node < next }

  /** The sweep has read `i` records and packed the valid ones into the first
      `n`; those it has yet to read are as they were. */
  ghost predicate Sweeping(records: seq<Record>, now: seq<Record>, n: nat, i: nat, kv: Index, next: nat) {
    && n <= i <= |records| == |now|
    && now[..n] == ValidRecords(records[..i])
    && now[i..] == records[i..]
    && IndexOf(now[..n], kv) && |kv| == n && NewlyMade(kv, next)
  }

  lemma SweepSkips(records: seq<Record>, now: seq<Record>, n: nat, i: nat, kv: Index, next: nat)
    requires Sweeping(records, now, n, i, kv, next) && i < |records| && !records[i].flag
    ensures Sweeping(records, now, n, i + 1, kv, next)
  {
    assert records[..i + 1][..i] == records[..i];
    assert now[i + 1..] == now[i..][1..] == records[i + 1..];
  }

  /** A valid record still to be read has a key that no packed record has. */
  lemma SweepMeetsNewKey(records: seq<Record>, size: nat, was: Index, now: seq<Record>, n: nat, i: nat, kv: Index, next: nat)
    requires Table(records, size, was) && Sweeping(records, now, n, i, kv, next) && i < size && records[i].flag
    ensures records[i].key !in kv
  {
    forall j | 0 <= j < n ensures now[..n][j].key != records[i].key {
      var h := ValidFrom(records[..i], j);
      assert Owned(records, was, h) && Owned(records, was, i);
    }
  }

  lemma SweepPacks(records: seq<Record>, size: nat, was: Index, now: seq<Record>, n: nat, i: nat, kv: Index, next: nat)
    requires Table(records, size, was) && Sweeping(records, now, n, i, kv, next) && i < size && records[i].flag
    ensures now[i] == records[i]
    ensures Sweeping(records, now[n := now[i]], n + 1, i + 1, kv[now[i].key := Entry(-1, n, next)], next + 1)
  {
    assert now[i] == now[i..][0] == records[i..][0] == records[i];
    SweepMeetsNewKey(records, size, was, now, n, i, kv, next);
    var now', kv' := now[n := now[i]], kv[now[i].key := Entry(-1, n, next)];
    assert records[..i + 1][..i] == records[..i];
    assert now'[..n + 1] == now[..n] + [now[i]];
    assert now'[i + 1..] == now[i..][1..] == records[i + 1..];
    forall k | k in kv' ensures kv'[k].at < n + 1 && now'[..n + 1][kv'[k].at].key == k {
      assert k != now[i].key ==> now[..n][kv[k].at].key == k;
    }
    var packed := now'[..n + 1];
    forall j | 0 <= j < |packed| ensures packed[j].key in kv' && kv'[packed[j].key].at == j {
      assert j < n ==> packed[j] == now[..n][j];
    }
  }
}
