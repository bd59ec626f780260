/** Tasks for the store of the second server, and how they are to be answered. */
module StoreTasks {
  import opened RecordLog
  import opened LogIndex

  /** A task for the store, and how it is answered. */
  datatype Task = GetTask(key: Text) | ChangeTask(op: Op)

  datatype Answer = Answer(success: bool, value: Text)

  function PlainAnswer(m: Plain, t: Task): (a: Answer) {
    match t
    case GetTask(key) => if key in m then Answer(true, m[key]) else Answer(false, [])
    case ChangeTask(Set(_, _)) => Answer(true, [])
    case ChangeTask(Del(key)) => Answer(key in m, [])
  }

  function PlainTask(m: Plain, t: Task): (r: Plain) { if t.ChangeTask? then PlainAfter(m, t.op) else m }

  /** The plain map after the first `i` tasks. */
  function PlainAt(m: Plain, ts: seq<Task>, i: nat): (r: Plain)
    requires i <= |ts|
  {
    if i == 0 then m else PlainTask(PlainAt(m, ts, i - 1), ts[i - 1])
  }

  /** The first `i` tasks are answered as by a plain map that was `m`. */
  ghost predicate Answered(m: Plain, ts: seq<Task>, i: nat, answers: seq<Answer>) {
    && i <= |ts| && |answers| == i
    && forall j :: 0 <= j < i ==> answers[j] == PlainAnswer(PlainAt(m, ts, j), ts[j])
  }

  lemma {:induction false} OneMoreAnswered(m: Plain, ts: seq<Task>, i: nat, answers: seq<Answer>)
    requires i < |ts| && Answered(m, ts, i, answers)
    ensures Answered(m, ts, i + 1, answers + [PlainAnswer(PlainAt(m, ts, i), ts[i])])
  {
    var more := answers + [PlainAnswer(PlainAt(m, ts, i), ts[i])];
    forall j | 0 <= j < i + 1 ensures more[j] == PlainAnswer(PlainAt(m, ts, j), ts[j]) {
      if j < i {
        assert more[j] == answers[j];
      } else {
        assert more[i] == PlainAnswer(PlainAt(m, ts, i), ts[i]);
      }
    }
  }

  // ---- answers and the final map, said of the tasks themselves ----

  predicate ChangesKey(t: Task, key: Text) { t.ChangeTask? && t.op.key == key }

  /** Task `j` is the last one before task `i` that sets or deletes the key. */
  predicate LastChange(ts: seq<Task>, i: int, key: Text, j: int) {
    0 <= j < i <= |ts| && ChangesKey(ts[j], key) && forall h :: j < h < i ==> !ChangesKey(ts[h], key)
  }

  /** No task before task `i` sets or deletes the key. */
  predicate Unchanged(ts: seq<Task>, i: int, key: Text) {
    i <= |ts| && forall h :: 0 <= h < i ==> !ChangesKey(ts[h], key)
  }

  /** Before task `i` the key has the value `v`: the one last set, or the one it had
      in `m`. */
  ghost predicate HasValue(m: Plain, ts: seq<Task>, i: int, key: Text, v: Text) {
    || (exists j :: LastChange(ts, i, key, j) && ts[j].op == Set(key, v))
    || (Unchanged(ts, i, key) && key in m && m[key] == v)
  }

  /** Before task `i` the key is not there: it was deleted last, or never set. */
  ghost predicate Absent(m: Plain, ts: seq<Task>, i: int, key: Text) {
    || (exists j :: LastChange(ts, i, key, j) && ts[j].op == Del(key))
    || (Unchanged(ts, i, key) && key !in m)
  }

  lemma {:induction false} OneOrAbsent(m: Plain, ts: seq<Task>, i: nat, key: Text, v: Text, v': Text)
    requires HasValue(m, ts, i, key, v)
    ensures !Absent(m, ts, i, key) && (HasValue(m, ts, i, key, v') ==> v == v')
  {
    forall j, j' | LastChange(ts, i, key, j) && LastChange(ts, i, key, j') ensures j == j' { }
  }

  /** A get and a delete succeed exactly if the key is there, and the get gives its
      value; a set always succeeds. */
  ghost predicate RightAnswer(m: Plain, ts: seq<Task>, i: int, a: Answer)
    requires 0 <= i < |ts|
  {
    match ts[i]
    case GetTask(key) => (a.success <==> !Absent(m, ts, i, key)) && (a.success ==> HasValue(m, ts, i, key, a.value))
    case ChangeTask(Set(_, _)) => a.success
    case ChangeTask(Del(key)) => a.success <==> !Absent(m, ts, i, key)
  }

  ghost predicate RightAnswers(m: Plain, ts: seq<Task>, answers: seq<Answer>) {
    |answers| == |ts| && forall i :: 0 <= i < |ts| ==> RightAnswer(m, ts, i, answers[i])
  }

  /** What the map says of a key before task `i` is right. */
  ghost predicate RightAbout(m: Plain, ts: seq<Task>, i: int, key: Text, now: Plain) {
    if key in now then HasValue(m, ts, i, key, now[key]) else Absent(m, ts, i, key)
  }

  /** `m'` is what the tasks make of `m`. */
  ghost predicate RightMap(m: Plain, ts: seq<Task>, m': Plain) {
    forall key :: RightAbout(m, ts, |ts|, key, m')
  }

  lemma {:induction false} ValueAt(m: Plain, ts: seq<Task>, i: nat, key: Text)
    requires i <= |ts|
    ensures RightAbout(m, ts, i, key, PlainAt(m, ts, i))
  {
    if i > 0 {
      ValueAt(m, ts, i - 1, key);
      ValueStep(m, ts, i, key, PlainAt(m, ts, i - 1));
    }
  }

  lemma {:induction false} ValueStep(m: Plain, ts: seq<Task>, i: nat, key: Text, now: Plain)
    requires 0 < i <= |ts| && RightAbout(m, ts, i - 1, key, now)
    ensures RightAbout(m, ts, i, key, PlainTask(now, ts[i - 1]))
  {
    if ChangesKey(ts[i - 1], key) {
      assert LastChange(ts, i, key, i - 1);
    } else {
      forall j ensures LastChange(ts, i, key, j) <==> LastChange(ts, i - 1, key, j) { SameLastChange(ts, i, key, j); }
    }
  }

  lemma SameLastChange(ts: seq<Task>, i: nat, key: Text, j: int)
    requires 0 < i <= |ts| && !ChangesKey(ts[i - 1], key)
    ensures LastChange(ts, i, key, j) <==> LastChange(ts, i - 1, key, j)
  {
  }

  lemma {:induction false} RightAt(m: Plain, ts: seq<Task>, i: nat)
    requires i < |ts|
    ensures RightAnswer(m, ts, i, PlainAnswer(PlainAt(m, ts, i), ts[i]))
  {
    var now := PlainAt(m, ts, i);
    var key := if ts[i].GetTask? then ts[i].key else ts[i].op.key;
    ValueAt(m, ts, i, key);
    if key in now { OneOrAbsent(m, ts, i, key, now[key], now[key]); }
  }

  /** The answers and the map of a run are right. */
  lemma {:induction false} RunIsRight(m: Plain, ts: seq<Task>, answers: seq<Answer>)
    requires Answered(m, ts, |ts|, answers)
    ensures RightAnswers(m, ts, answers) && RightMap(m, ts, PlainAt(m, ts, |ts|))
  {
    forall i | 0 <= i < |ts| ensures RightAnswer(m, ts, i, answers[i]) { RightAt(m, ts, i); }
    forall key ensures RightAbout(m, ts, |ts|, key, PlainAt(m, ts, |ts|)) {
      ValueAt(m, ts, |ts|, key);
    }
  }
}
