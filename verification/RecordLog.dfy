/** The byte format of the append-only data files of the second server, and the
    file object that appends and reads records. */
module RecordLog {
  import opened Bytes

  /** Keys and values have lengths that fit the two length fields. */
  type Text = s: seq<byte> | |s| <= INT32_MAX

  /** A record; its two lengths are stored before the bytes. */
  datatype Record = Record(crc: int32, key: Text, value: Text)

  const HEADER: nat := 12

  function Header(crc: int32, keyLen: int32, valueLen: int32): (s: seq<byte>)
    ensures |s| == HEADER
  {
    Encode32(crc) + Encode32(keyLen) + Encode32(valueLen)
  }

  function Encode(r: Record): (s: seq<byte>)
    ensures |s| == Size(r)
  {
    Header(r.crc, |r.key| as int32, |r.value| as int32) + r.key + r.value
  }

  function Size(r: Record): (n: nat)
    ensures n >= HEADER
  {
    HEADER + |r.key| + |r.value|
  }

  /** What reading at an offset gives: nothing at the end of the file, an error
      when the bytes do not make a whole record, or a record and its size. */
  datatype Got = Eof | Malformed | Got(record: Record, n: nat)

  function ReadAt(data: seq<byte>, offset: nat): (g: Got)
    ensures g.Got? ==> offset + g.n <= |data| && g.n == Size(g.record)
  {
    if offset >= |data| then Eof
    else if offset + HEADER > |data| then Malformed
    else
      var crc := Decode32(data[offset..offset + 4]);
      var keyLen := Decode32(data[offset + 4..offset + 8]) as int;
      var valueLen := Decode32(data[offset + 8..offset + 12]) as int;
      var body := offset + HEADER;
      if keyLen < 0 || body + keyLen > |data| then Malformed
      else if valueLen < 0 || body + keyLen + valueLen > |data| then Malformed
      else Got(Record(crc, data[body..body + keyLen], data[body + keyLen..body + keyLen + valueLen]),
               HEADER + keyLen + valueLen)
  }

  lemma SubSlice(s: seq<byte>, lo: nat, hi: nat, i: nat, j: nat)
    requires lo <= hi <= |s| && i <= j <= hi - lo
    ensures s[lo..hi][i..j] == s[lo + i..lo + j]
  {
    forall k | 0 <= k < j - i ensures s[lo..hi][i..j][k] == s[lo + i..lo + j][k] { }
  }

  lemma EncodedParts(data: seq<byte>, pre: seq<byte>, r: Record, post: seq<byte>)
    requires data == pre + Encode(r) + post
    ensures |data| >= |pre| + Size(r)
    ensures data[|pre|..|pre| + 4] == Encode32(r.crc)
    ensures data[|pre| + 4..|pre| + 8] == Encode32(|r.key| as int32)
    ensures data[|pre| + 8..|pre| + 12] == Encode32(|r.value| as int32)
    ensures data[|pre| + HEADER..|pre| + HEADER + |r.key|] == r.key
    ensures data[|pre| + HEADER + |r.key|..|pre| + Size(r)] == r.value
  {
  }

  /** Reading where a record was written gives it back, whatever is around it. */
  lemma ReadWritten(pre: seq<byte>, r: Record, post: seq<byte>)
    ensures ReadAt(pre + Encode(r) + post, |pre|) == Got(r, Size(r))
  {
    EncodedParts(pre + Encode(r) + post, pre, r, post);
    Int32RoundTrip(r.crc);
    Int32RoundTrip(|r.key| as int32);
    Int32RoundTrip(|r.value| as int32);
  }

  /** Reading gives nothing only at the end of the file, and a record exactly where its
      bytes are. */
  lemma {:induction false} ReadExactly(data: seq<byte>, offset: nat, r: Record)
    ensures ReadAt(data, offset) == Eof <==> offset >= |data|
    ensures ReadAt(data, offset) == Got(r, Size(r)) <==>
      offset + Size(r) <= |data| && data[offset..offset + Size(r)] == Encode(r)
  {
    if offset + Size(r) <= |data| && data[offset..offset + Size(r)] == Encode(r) {
      ReadWritten(data[..offset], r, data[offset + Size(r)..]);
      assert data[..offset] + Encode(r) + data[offset + Size(r)..] == data;
    }
    if ReadAt(data, offset) == Got(r, Size(r)) { ReadIsEncoded(data, offset, r); }
  }

  lemma {:induction false} ReadIsEncoded(data: seq<byte>, offset: nat, r: Record)
    requires ReadAt(data, offset) == Got(r, Size(r))
    ensures offset + Size(r) <= |data| && data[offset..offset + Size(r)] == Encode(r)
  {
    var body := offset + HEADER;
    BytesRoundTrip(data[offset..offset + 4]);
    BytesRoundTrip(data[offset + 4..offset + 8]);
    BytesRoundTrip(data[offset + 8..offset + 12]);
    assert Header(r.crc, |r.key| as int32, |r.value| as int32)
        == data[offset..offset + 4] + data[offset + 4..offset + 8] + data[offset + 8..offset + 12];
    FiveParts(data, offset, |r.key|, |r.value|);
  }

  lemma FiveParts(data: seq<byte>, offset: nat, k: nat, v: nat)
    requires offset + HEADER + k + v <= |data|
    ensures data[offset..offset + HEADER + k + v]
         == data[offset..offset + 4] + data[offset + 4..offset + 8] + data[offset + 8..offset + 12]
          + data[offset + HEADER..offset + HEADER + k] + data[offset + HEADER + k..offset + HEADER + k + v]
  {
  }

  /** Appending to a file changes no record that can be read from it. */
  lemma ReadStable(data: seq<byte>, more: seq<byte>, offset: nat)
    requires ReadAt(data, offset).Got?
    ensures ReadAt(data + more, offset) == ReadAt(data, offset)
  {
    var all := data + more;
    var n := ReadAt(data, offset).n;
    assert all[offset..offset + n] == data[offset..offset + n];
    assert forall i, j :: offset <= i <= j <= offset + n ==> all[i..j] == data[i..j];
  }

  // ---- a file as a sequence of records ----

  /** The bytes of a file to which `rs` were appended. */
  function Log(rs: seq<Record>): (s: seq<byte>)
  {
    if rs == [] then [] else Log(rs[..|rs| - 1]) + Encode(rs[|rs| - 1])
  }

  lemma {:induction false} LogAppend(rs: seq<Record>, r: Record)
    ensures Log(rs + [r]) == Log(rs) + Encode(r)
  {
    assert (rs + [r])[..|rs|] == rs;
  }

  lemma LogTake(rs: seq<Record>, i: nat)
    requires i < |rs|
    ensures Log(rs[..i + 1]) == Log(rs[..i]) + Encode(rs[i])
  {
    assert rs[..i + 1][..i] == rs[..i];
  }

  /** Walking a file by the sizes returned meets its records in order. */
  lemma {:induction false} WalkLog(rs: seq<Record>, i: nat)
    requires i < |rs|
    ensures ReadAt(Log(rs), |Log(rs[..i])|) == Got(rs[i], Size(rs[i]))
    ensures |Log(rs[..i])| + Size(rs[i]) == |Log(rs[..i + 1])|
  {
    assert rs[..i + 1][..i] == rs[..i];
    var rest, last := rs[..|rs| - 1], rs[|rs| - 1];
    if i == |rs| - 1 {
      assert rs[..i] == rest && rs[..i + 1] == rs;
      ReadWritten(Log(rest), last, []);
      assert Log(rs) == Log(rest) + Encode(last) + [];
    } else {
      WalkLog(rest, i);
      assert rest[..i] == rs[..i] && rest[..i + 1] == rs[..i + 1];
      ReadStable(Log(rest), Encode(last), |Log(rs[..i])|);
    }
  }

  /** Walking the file from its start by the sizes returned meets `rs`. */
  ghost predicate Walked(data: seq<byte>, rs: seq<Record>) {
    forall i :: 0 <= i < |rs| ==> ReadAt(data, |Log(rs[..i])|) == Got(rs[i], Size(rs[i]))
  }

  /** The walk meets `rs` and stops there, at the end of the file or at bytes that
      are no record. */
  ghost predicate Parses(data: seq<byte>, rs: seq<Record>) {
    Walked(data, rs) && !ReadAt(data, |Log(rs)|).Got?
  }

  lemma {:induction false} WalkedNext(data: seq<byte>, rs: seq<Record>, r: Record)
    requires Walked(data, rs) && ReadAt(data, |Log(rs)|) == Got(r, Size(r))
    ensures Walked(data, rs + [r]) && |Log(rs + [r])| == |Log(rs)| + Size(r)
  {
    LogAppend(rs, r);
    assert (rs + [r])[..|rs|] == rs;
    assert forall i :: 0 <= i < |rs| ==> (rs + [r])[..i] == rs[..i];
  }

  /** Any bytes parse in one way only. */
  lemma {:induction false} ParsesOnce(data: seq<byte>, rs: seq<Record>, rs': seq<Record>)
    requires Parses(data, rs) && Parses(data, rs')
    ensures rs == rs'
  {
    NotLonger(data, rs, rs');
    NotLonger(data, rs', rs);
  }

  lemma {:induction false} NotLonger(data: seq<byte>, rs: seq<Record>, rs': seq<Record>)
    requires Parses(data, rs) && Walked(data, rs')
    ensures |rs'| <= |rs| && rs' == rs[..|rs'|]
    ensures |rs'| == |rs| ==> rs' == rs
  {
    var k := if |rs| < |rs'| then |rs| else |rs'|;
    SamePrefix(data, rs, rs', k);
    Whole(rs);
    Whole(rs');
    WalkedAt(data, rs', k);
  }

  lemma WalkedAt(data: seq<byte>, rs: seq<Record>, i: nat)
    requires Walked(data, rs) && i <= |rs|
    ensures i < |rs| ==> ReadAt(data, |Log(rs[..i])|).Got?
  {
  }

  lemma {:induction false} SamePrefix(data: seq<byte>, rs: seq<Record>, rs': seq<Record>, k: nat)
    requires Walked(data, rs) && Walked(data, rs') && k <= |rs| && k <= |rs'|
    ensures rs[..k] == rs'[..k]
  {
    if k > 0 {
      SamePrefix(data, rs, rs', k - 1);
      assert rs[k - 1] == rs'[k - 1];
      OneLonger(rs, rs', k);
    }
  }

  lemma Whole<A>(s: seq<A>)
    ensures s[..|s|] == s
  {
  }

  lemma OneLonger<A>(s: seq<A>, t: seq<A>, k: nat)
    requires 0 < k <= |s| && k <= |t| && s[..k - 1] == t[..k - 1] && s[k - 1] == t[k - 1]
    ensures s[..k] == t[..k]
  {
    assert s[..k] == s[..k - 1] + [s[k - 1]] && t[..k] == t[..k - 1] + [t[k - 1]];
  }

  /** A file parses to the records that were appended to it. */
  lemma {:induction false} ParsesLog(rs: seq<Record>)
    ensures Parses(Log(rs), rs)
  {
    forall i | 0 <= i < |rs| ensures ReadAt(Log(rs), |Log(rs[..i])|) == Got(rs[i], Size(rs[i])) {
      WalkLog(rs, i);
    }
  }

  // ---- the file object ----

  class DataNode {
    /** The bytes on disk, the position of the descriptor, and the size the
        object believes the file to have. */
    var data: seq<byte>
    var pos: nat
    var totalOffset: nat

    constructor (data: seq<byte>)
      ensures this.data == data && totalOffset == 0
    {
      this.data, pos, totalOffset := data, 0, 0;
    }

    /** Reads up to `n` bytes from the position. */
    method Read(n: nat) returns (bytes: seq<byte>)
      modifies this`pos
      ensures bytes == if old(pos) >= |data| then [] else if old(pos) + n <= |data| then data[old(pos)..old(pos) + n] else data[old(pos)..]
      ensures pos == old(pos) + |bytes|
    {
      bytes := if pos >= |data| then [] else if pos + n <= |data| then data[pos..pos + n] else data[pos..];
      pos := pos + |bytes|;
    }

    method Write(bytes: seq<byte>)
      requires pos == |data|
      modifies this`data, this`pos
      ensures data == old(data) + bytes && pos == |data|
    {
      data := data + bytes;
      pos := |data|;
    }

    /** Reads the record at an offset: its size, 0 at the end of the file, or -1. */
    method GetRecord(offset: nat) returns (n: int, record: Record)
      modifies this`pos
      ensures match ReadAt(data, offset)
              case Eof => n == 0
              case Malformed => n == -1
              case Got(r, size) => n == size && record == r
      ensures n == 0 <==> offset >= |data|
      ensures n == 0 || n == -1 || n == Size(record)
    {
      pos := offset;
      var header := Read(HEADER);
      if |header| != HEADER {
        return if |header| == 0 then 0 else -1, Record(0, [], []);
      }
      SubSlice(data, offset, offset + HEADER, 0, 4);
      SubSlice(data, offset, offset + HEADER, 4, 8);
      SubSlice(data, offset, offset + HEADER, 8, 12);
      n, record := GetBody(Decode32(header[0..4]), Decode32(header[4..8]) as int, Decode32(header[8..12]) as int);
    }

    /** Reads a key and a value of the lengths that the header gave. */
    method GetBody(crc: int32, keyLen: int, valueLen: int) returns (n: int, record: Record)
      requires pos <= |data| && keyLen <= INT32_MAX && valueLen <= INT32_MAX
      modifies this`pos
      ensures var body := old(pos);
        if keyLen < 0 || body + keyLen > |data| || valueLen < 0 || body + keyLen + valueLen > |data| then n == -1
        else (n == HEADER + keyLen + valueLen
              && record == Record(crc, data[body..body + keyLen], data[body + keyLen..body + keyLen + valueLen]))
    {
      record := Record(0, [], []);
      if keyLen < 0 { return -1, record; }
      var key := Read(keyLen);
      if |key| != keyLen { return -1, record; }
      if valueLen < 0 { return -1, record; }
      var value := Read(valueLen);
      if |value| != valueLen { return -1, record; }
      return HEADER + keyLen + valueLen, Record(crc, key, value);
    }

    /** Writes a record at the end of the file. */
    method AppendRecord(record: Record) returns (wrote: nat)
      modifies this
      ensures data == old(data) + Encode(record)
      ensures wrote == Size(record) && totalOffset == old(totalOffset) + wrote
    {
      pos := |data|;
      Write(Header(record.crc, |record.key| as int32, |record.value| as int32));
      wrote := HEADER;
      Write(record.key);
      wrote := wrote + |record.key|;
      if |record.value| > 0 {
        Write(record.value);
        wrote := wrote + |record.value|;
      }
      totalOffset := totalOffset + wrote;
    }
  }
}
