/** Which key has record 0 of the record array, and whether deleting an absent key
    has expired it, over runs of requests. */
module FirstRecord {
  import opened Requests

  /** No record yet, a record 0 that no live key has, or a key that has it. */
  datatype First = NoRecord | Gone | Held(key: string, lost: bool)

  function Touched(f: First, key: string): (g: First) { if f.Held? && f.key == key then Gone else f }

  function Added(f: First, key: string): (g: First) { if f.NoRecord? then Held(key, false) else f }

  function Expired(f: First): (g: First) { if f.Held? then f.(lost := true) else f }

  function LostOf(f: First): (lost: set<string>) { if f.Held? && f.lost then {f.key} else {} }

  function FirstAfter(f: First, m: Plain, q: Request): (g: First) {
    match q
    case Get(_) => f
    case Set(key, _) => Added(Touched(f, key), key)
    case Delete(key) => if key in m then Touched(f, key) else Expired(f)
  }

  function FirstAll(f: First, m: Plain, qs: seq<Request>): (g: First) {
    if qs == [] then f
    else FirstAfter(FirstAll(f, m, qs[..|qs| - 1]), AfterAll(m, qs[..|qs| - 1]), qs[|qs| - 1])
  }

  /** Every Delete names a key that is there. */
  predicate DeletesPresent(m: Plain, qs: seq<Request>) {
    forall j :: 0 <= j < |qs| ==> !Stray(m, qs, j)
  }

  /** Request `j` deletes a key that is not there. */
  predicate Stray(m: Plain, qs: seq<Request>, j: int) {
    0 <= j < |qs| && qs[j].Delete? && qs[j].key !in AfterAll(m, qs[..j])
  }

  lemma {:induction false} NothingLost(f: First, m: Plain, qs: seq<Request>)
    requires DeletesPresent(m, qs) && LostOf(f) == {}
    ensures LostOf(FirstAll(f, m, qs)) == {}
  {
    if qs != [] {
      var before := qs[..|qs| - 1];
      forall j | 0 <= j < |before| ensures !Stray(m, before, j) {
        assert before[..j] == qs[..j];
        assert !Stray(m, qs, j);
      }
      NothingLost(f, m, before);
      assert !Stray(m, qs, |qs| - 1);
    }
  }

  // ---- from an empty array: which key is lost ----

  predicate Changes(q: Request, key: string) { !q.Get? && q.key == key }

  /** Request `i` is the first Set, of `key`, and nothing changes the key later. */
  predicate FirstSetAt(qs: seq<Request>, key: string, i: int) {
    && 0 <= i < |qs| && qs[i].Set? && qs[i].key == key
    && (forall h :: 0 <= h < i ==> !qs[h].Set?)
    && (forall h :: i < h < |qs| ==> !Changes(qs[h], key))
  }

  /** The key was set first of all and never changed since, and later a key was
      deleted that was not there. */
  ghost predicate SetFirstThenStray(qs: seq<Request>, key: string) {
    exists i, j :: FirstSetAt(qs, key, i) && i < j && Stray(map[], qs, j)
  }

  ghost predicate SetFirst(qs: seq<Request>, key: string) { exists i :: FirstSetAt(qs, key, i) }

  /** What record 0 says about a run from an empty array. */
  ghost predicate Describes(f: First, qs: seq<Request>) {
    && (f.NoRecord? <==> forall h :: 0 <= h < |qs| ==> !qs[h].Set?)
    && (forall key :: SetFirst(qs, key) <==> f.Held? && f.key == key)
    && (f.Held? ==> f.key in AfterAll(map[], qs) && (f.lost <==> SetFirstThenStray(qs, f.key)))
  }

  lemma {:induction false} OnlyFirstIsLost(qs: seq<Request>, key: string)
    ensures key in LostOf(FirstAll(NoRecord, map[], qs)) <==> SetFirstThenStray(qs, key)
  {
    RunDescribes(qs);
    if SetFirstThenStray(qs, key) { assert SetFirst(qs, key); }
  }

  /** A run that loses a key. */
  lemma {:induction false} StrayDeleteLoses()
    ensures var qs := [Set("a", "1"), Delete("b")];
      AfterAll(map[], qs) == map["a" := "1"] && LostOf(FirstAll(NoRecord, map[], qs)) == {"a"}
  {
    var qs := [Set("a", "1"), Delete("b")];
    assert qs[..1] == [Set("a", "1")] && qs[..1][..0] == [];
    assert AfterAll(map[], qs[..1]) == map["a" := "1"];
    assert FirstAll(NoRecord, map[], qs[..1]) == Held("a", false);
  }

  lemma {:induction false} RunDescribes(qs: seq<Request>)
    ensures Describes(FirstAll(NoRecord, map[], qs), qs)
  {
    if qs != [] {
      var before, q := qs[..|qs| - 1], qs[|qs| - 1];
      RunDescribes(before);
      var f := FirstAll(NoRecord, map[], before);
      OneMoreDescribes(f, before, q);
      assert before + [q] == qs;
    }
  }

  lemma {:induction false} OneMoreDescribes(f: First, qs: seq<Request>, q: Request)
    requires Describes(f, qs)
    ensures Describes(FirstAfter(f, AfterAll(map[], qs), q), qs + [q])
  {
    forall key ensures SetFirst(qs + [q], key) <==>
      (SetFirst(qs, key) && !Changes(q, key)) || (f.NoRecord? && q.Set? && q.key == key)
    {
      OneMoreFirst(qs, q, key);
    }
    forall key | SetFirst(qs, key) && !Changes(q, key)
      ensures SetFirstThenStray(qs + [q], key) <==> SetFirstThenStray(qs, key) || Stray(map[], qs + [q], |qs|)
    {
      OneMoreStray(qs, q, key);
    }
    assert (qs + [q])[..|qs|] == qs;
    if f.NoRecord? && q.Set? { NoStrayYet(qs, q); }
    if f.Held? { assert SetFirst(qs, f.key); }
    if f.NoRecord? { EmptyUntilSet(qs); }
    assert forall h :: 0 <= h < |qs| ==> (qs + [q])[h] == qs[h];
  }

  lemma {:induction false} OneMoreFirst(qs: seq<Request>, q: Request, key: string)
    ensures SetFirst(qs + [q], key) <==>
      (SetFirst(qs, key) && !Changes(q, key)) || ((forall h :: 0 <= h < |qs| ==> !qs[h].Set?) && q.Set? && q.key == key)
  {
    var more := qs + [q];
    if i :| FirstSetAt(qs, key, i) && !Changes(q, key) {
      assert FirstSetAt(more, key, i);
    }
    if i :| FirstSetAt(more, key, i) {
      if i < |qs| {
        assert more[|qs|] == q;
        assert forall h :: 0 <= h < |qs| ==> more[h] == qs[h];
        assert FirstSetAt(qs, key, i);
      } else {
        assert forall h :: 0 <= h < |qs| ==> more[h] == qs[h];
      }
    }
    if (forall h :: 0 <= h < |qs| ==> !qs[h].Set?) && q.Set? && q.key == key {
      assert FirstSetAt(more, key, |qs|);
    }
  }

  lemma {:induction false} OneMoreStray(qs: seq<Request>, q: Request, key: string)
    requires SetFirst(qs, key) && !Changes(q, key)
    ensures SetFirstThenStray(qs + [q], key) <==> SetFirstThenStray(qs, key) || Stray(map[], qs + [q], |qs|)
  {
    var more := qs + [q];
    forall j | 0 <= j < |qs| ensures Stray(map[], more, j) <==> Stray(map[], qs, j) {
      assert more[..j] == qs[..j];
    }
    var i :| FirstSetAt(qs, key, i);
    assert FirstSetAt(more, key, i);
    if a, b :| FirstSetAt(qs, key, a) && a < b && Stray(map[], qs, b) {
      assert FirstSetAt(more, key, a) && Stray(map[], more, b);
    }
    if a, b :| FirstSetAt(more, key, a) && a < b && Stray(map[], more, b) {
      assert a == i;
      assert b < |qs| ==> Stray(map[], qs, b);
    }
  }

  /** The request that sets the first key is not followed by another one. */
  lemma NoStrayYet(qs: seq<Request>, q: Request)
    requires q.Set? && forall h :: 0 <= h < |qs| ==> !qs[h].Set?
    ensures !SetFirstThenStray(qs + [q], q.key)
  {
  }

  lemma {:induction false} EmptyUntilSet(qs: seq<Request>)
    requires forall h :: 0 <= h < |qs| ==> !qs[h].Set?
    ensures AfterAll(map[], qs) == map[]
  {
    if qs != [] { EmptyUntilSet(qs[..|qs| - 1]); }
  }
}
