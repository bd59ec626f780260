/** What a client of the v1 server may ask for, and what a plain map would
    answer. */
module Requests {

  datatype Request =
    | Get(key: string)
    | Set(key: string, value: string)
    | Delete(key: string)

  type Plain = map<string, string>

  function After(m: Plain, q: Request): (r: Plain) {
    match q
    case Get(_) => m
    case Set(key, value) => m[key := value]
    case Delete(key) => m - {key}
  }

  /** `tells` says whether deleting an absent key is an error. */
  function Reply(m: Plain, q: Request, tells: bool): (r: string) {
    match q
    case Get(key) => if key in m then m[key] else "NULL"
    case Set(_, _) => "OK"
    case Delete(key) => if key in m || !tells then "OK" else "error"
  }

  function AfterAll(m: Plain, qs: seq<Request>): (r: Plain) {
    if qs == [] then m else After(AfterAll(m, qs[..|qs| - 1]), qs[|qs| - 1])
  }

  function Replies(m: Plain, qs: seq<Request>, tells: bool): (r: seq<string>) {
    if qs == [] then []
    else Replies(m, qs[..|qs| - 1], tells) + [Reply(AfterAll(m, qs[..|qs| - 1]), qs[|qs| - 1], tells)]
  }

  predicate KeysNotEmpty(qs: seq<Request>) {
    forall i :: 0 <= i < |qs| && qs[i].Set? ==> qs[i].key != ""
  }

  // ---- replies and the final map, said of the run itself ----

  /** Request `j` is the last one before request `i` that sets or deletes the key. */
  predicate LastChange(qs: seq<Request>, i: int, key: string, j: int) {
    && 0 <= j < i <= |qs| && !qs[j].Get? && qs[j].key == key
    && forall h :: j < h < i ==> qs[h].Get? || qs[h].key != key
  }

  /** No request before request `i` sets or deletes the key. */
  predicate Unchanged(qs: seq<Request>, i: int, key: string) {
    i <= |qs| && forall h :: 0 <= h < i ==> qs[h].Get? || qs[h].key != key
  }

  /** Before request `i` the key has the value `v`: the one last set, or the one it
      had in `m`. */
  ghost predicate HasValue(m: Plain, qs: seq<Request>, i: int, key: string, v: string) {
    || (exists j :: LastChange(qs, i, key, j) && qs[j] == Set(key, v))
    || (Unchanged(qs, i, key) && key in m && m[key] == v)
  }

  /** Before request `i` the key is not there: it was deleted last, or never set. */
  ghost predicate Absent(m: Plain, qs: seq<Request>, i: int, key: string) {
    || (exists j :: LastChange(qs, i, key, j) && qs[j] == Delete(key))
    || (Unchanged(qs, i, key) && key !in m)
  }

  /** Each key is absent or has one value. */
  lemma {:induction false} OneOrAbsent(m: Plain, qs: seq<Request>, i: nat, key: string, v: string, v': string)
    requires HasValue(m, qs, i, key, v)
    ensures !Absent(m, qs, i, key) && (HasValue(m, qs, i, key, v') ==> v == v')
  {
    forall j, j' | LastChange(qs, i, key, j) && LastChange(qs, i, key, j') ensures j == j' { }
  }

  /** A get is answered with the key's value, or "NULL"; a set with "OK"; and a
      delete with "OK", or "error" if the key is not there and the server tells. */
  ghost predicate RightReply(m: Plain, qs: seq<Request>, i: int, reply: string, tells: bool)
    requires 0 <= i < |qs|
  {
    match qs[i]
    case Get(key) => if Absent(m, qs, i, key) then reply == "NULL" else HasValue(m, qs, i, key, reply)
    case Set(_, _) => reply == "OK"
    case Delete(key) => reply == if tells && Absent(m, qs, i, key) then "error" else "OK"
  }

  ghost predicate RightReplies(m: Plain, qs: seq<Request>, replies: seq<string>, tells: bool) {
    |replies| == |qs| && forall i :: 0 <= i < |qs| ==> RightReply(m, qs, i, replies[i], tells)
  }

  /** What the map says of a key before request `i` is right. */
  ghost predicate RightAbout(m: Plain, qs: seq<Request>, i: int, key: string, now: Plain) {
    if key in now then HasValue(m, qs, i, key, now[key]) else Absent(m, qs, i, key)
  }

  /** `m'` is what the requests make of `m`. */
  ghost predicate RightMap(m: Plain, qs: seq<Request>, m': Plain) {
    forall key :: RightAbout(m, qs, |qs|, key, m')
  }

  lemma {:induction false} ValueAt(m: Plain, qs: seq<Request>, i: nat, key: string)
    requires i <= |qs|
    ensures RightAbout(m, qs, i, key, AfterAll(m, qs[..i]))
  {
    if i > 0 {
      ValueAt(m, qs, i - 1, key);
      assert qs[..i][..i - 1] == qs[..i - 1];
      ValueStep(m, qs, i, key, AfterAll(m, qs[..i - 1]));
    }
  }

  lemma {:induction false} ValueStep(m: Plain, qs: seq<Request>, i: nat, key: string, now: Plain)
    requires 0 < i <= |qs| && RightAbout(m, qs, i - 1, key, now)
    ensures RightAbout(m, qs, i, key, After(now, qs[i - 1]))
  {
    if !qs[i - 1].Get? && qs[i - 1].key == key {
      assert LastChange(qs, i, key, i - 1);
    } else {
      forall j ensures LastChange(qs, i, key, j) <==> LastChange(qs, i - 1, key, j) { SameLastChange(qs, i, key, j); }
    }
  }

  lemma SameLastChange(qs: seq<Request>, i: nat, key: string, j: int)
    requires 0 < i <= |qs| && (qs[i - 1].Get? || qs[i - 1].key != key)
    ensures LastChange(qs, i, key, j) <==> LastChange(qs, i - 1, key, j)
  {
  }

  lemma {:induction false} ReplyAt(m: Plain, qs: seq<Request>, i: nat, tells: bool)
    requires i < |qs|
    ensures |Replies(m, qs, tells)| == |qs|
    ensures Replies(m, qs, tells)[i] == Reply(AfterAll(m, qs[..i]), qs[i], tells)
  {
    var before := qs[..|qs| - 1];
    if i < |before| {
      ReplyAt(m, before, i, tells);
      assert before[..i] == qs[..i];
    } else {
      RepliesLength(m, before, tells);
    }
  }

  lemma {:induction false} RepliesLength(m: Plain, qs: seq<Request>, tells: bool)
    ensures |Replies(m, qs, tells)| == |qs|
  {
    if qs != [] { RepliesLength(m, qs[..|qs| - 1], tells); }
  }

  lemma {:induction false} RightAt(m: Plain, qs: seq<Request>, i: nat, tells: bool)
    requires i < |qs|
    ensures RightReply(m, qs, i, Reply(AfterAll(m, qs[..i]), qs[i], tells), tells)
  {
    if !qs[i].Set? {
      var now := AfterAll(m, qs[..i]);
      ValueAt(m, qs, i, qs[i].key);
      if qs[i].key in now { OneOrAbsent(m, qs, i, qs[i].key, now[qs[i].key], now[qs[i].key]); }
    }
  }

  /** The replies and the map of a run are right. */
  lemma {:induction false} RunIsRight(m: Plain, qs: seq<Request>, tells: bool)
    ensures RightReplies(m, qs, Replies(m, qs, tells), tells) && RightMap(m, qs, AfterAll(m, qs))
  {
    RepliesLength(m, qs, tells);
    forall i | 0 <= i < |qs| ensures RightReply(m, qs, i, Replies(m, qs, tells)[i], tells) {
      ReplyAt(m, qs, i, tells);
      RightAt(m, qs, i, tells);
    }
    assert qs[..|qs|] == qs;
    forall key ensures RightAbout(m, qs, |qs|, key, AfterAll(m, qs)) {
      ValueAt(m, qs, |qs|, key);
    }
  }
}
