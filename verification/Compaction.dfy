/** The compaction thread of the second server: it copies a file's records into a
    new file and moves their index entries by compare-and-set, while the
    foreground goes on writing and deleting in newer files. */
module Compaction {
  import opened Bytes
  import opened RecordLog

  /** The file being compacted, its replacement, or any other file. */
  datatype Place = Old | New | Other(file: nat)

  datatype Entry = Entry(node: Place, offset: nat)

  type Index = map<Text, Entry>

  /** `index` is the real index; `want` is what it would be had only the
      foreground run. Record number `next` of the old file is the one being
      worked on; `copying` says it is already in the new file. `total` is the
      size the new file believes it has, `phys` the bytes really in it. For
      each record the last three say which offset was noted for it, where it
      really is, and whether its compare-and-set failed. */
  datatype State = State(
    index: Index, want: Index, next: nat, copying: bool, total: nat, phys: nat,
    noted: seq<nat>, placed: seq<nat>, failed: seq<bool>)

  datatype Action = Save(key: Text, file: nat, offset: nat) | Delete(key: Text) | Copy | Swap

  /** Where record `i` starts in the old file. */
  function OffsetOf(rs: seq<Record>, i: nat): (n: nat)
    requires i <= |rs|
  {
    |Log(rs[..i])|
  }

  lemma OffsetStep(rs: seq<Record>, i: nat)
    requires i < |rs|
    ensures OffsetOf(rs, i + 1) == OffsetOf(rs, i) + Size(rs[i])
  {
    LogTake(rs, i);
  }

  lemma {:induction false} OffsetsGrow(rs: seq<Record>, i: nat, j: nat)
    requires i < j <= |rs|
    ensures OffsetOf(rs, i) < OffsetOf(rs, j)
  {
    OffsetStep(rs, j - 1);
    if i < j - 1 { OffsetsGrow(rs, i, j - 1); }
  }

  predicate Enabled(s: State, rs: seq<Record>, a: Action) {
    match a
    case Save(_, _, _) => true
    case Delete(_) => true
    case Copy => !s.copying && s.next < |rs|
    case Swap => s.copying && s.next < |rs| && |s.noted| > 0 && s.total >= Size(rs[s.next])
  }

  /** The compare-and-set of record `next` finds the entry still pointing at it. */
  predicate Current(s: State, rs: seq<Record>)
    requires s.next < |rs|
  {
    var key := rs[s.next].key;
    key in s.index && s.index[key] == Entry(Old, OffsetOf(rs, s.next))
  }

  function Next(s: State, rs: seq<Record>, a: Action): (s': State)
    requires Enabled(s, rs, a)
  {
    match a
    case Save(key, file, offset) =>
      s.(index := s.index[key := Entry(Other(file), offset)], want := s.want[key := Entry(Other(file), offset)])
    case Delete(key) =>
      s.(index := s.index - {key}, want := s.want - {key})
    case Copy =>
      var n := Size(rs[s.next]);
      s.(copying := true, total := s.total + n, phys := s.phys + n,
         noted := s.noted + [s.total], placed := s.placed + [s.phys])
    case Swap =>
      var r := rs[s.next];
      var done := s.(copying := false, next := s.next + 1);
      if |r.value| == 0 then done.(failed := s.failed + [false])
      else if Current(s, rs) then
        done.(index := s.index[r.key := Entry(New, s.noted[|s.noted| - 1])], failed := s.failed + [false])
      else done.(total := s.total - Size(r), failed := s.failed + [true])
  }

  // ---- the index ----

  /** The entry of a key whose wanted entry is record `i` of the old file: moved
      to the copy once the record has been passed, unless its value is empty. */
  ghost predicate Follows(s: State, rs: seq<Record>, key: Text, i: nat)
    requires key in s.index && key in s.want
  {
    && i < |rs| && rs[i].key == key && s.want[key] == Entry(Old, OffsetOf(rs, i))
    && s.index[key] == if i < s.next && i < |s.noted| && |rs[i].value| > 0 then Entry(New, s.noted[i]) else s.want[key]
  }

  ghost predicate EntryOk(s: State, rs: seq<Record>, key: Text)
    requires key in s.index && key in s.want
  {
    && s.want[key].node != New
    && (s.want[key].node.Other? ==> s.index[key] == s.want[key])
    && (s.want[key].node.Old? ==> exists i :: Follows(s, rs, key, i))
  }

  ghost predicate IndexOk(s: State, rs: seq<Record>) {
    && s.index.Keys == s.want.Keys
    && forall k :: k in s.want ==> EntryOk(s, rs, k)
  }

  // ---- the offsets in the new file ----

  /** Bytes of the first `i` records whose compare-and-set failed. */
  ghost function Lost(rs: seq<Record>, failed: seq<bool>, i: nat): nat
    requires i <= |rs| && i <= |failed|
  {
    if i == 0 then 0 else Lost(rs, failed, i - 1) + if failed[i - 1] then Size(rs[i - 1]) else 0
  }

  ghost predicate Counts(s: State, rs: seq<Record>) {
    && s.next <= |rs| && |s.failed| == s.next
    && |s.noted| == |s.placed| == s.next + (if s.copying then 1 else 0)
    && (s.copying ==> s.next < |rs| && s.total >= Size(rs[s.next]))
  }

  ghost predicate OffsetsOk(s: State, rs: seq<Record>)
    requires Counts(s, rs)
  {
    && s.total + Lost(rs, s.failed, s.next) == s.phys
    && forall i :: 0 <= i < |s.noted| ==> s.noted[i] + Lost(rs, s.failed, i) == s.placed[i]
  }

  ghost predicate Inv(s: State, rs: seq<Record>) {
    Counts(s, rs) && OffsetsOk(s, rs) && IndexOk(s, rs)
  }

  // ---- every action keeps the invariant ----

  lemma SameOffset(rs: seq<Record>, i: nat, j: nat)
    requires i < |rs| && j < |rs| && OffsetOf(rs, i) == OffsetOf(rs, j)
    ensures i == j
  {
    if i < j { OffsetsGrow(rs, i, j); }
    if j < i { OffsetsGrow(rs, j, i); }
  }

  lemma {:induction false} LostStable(rs: seq<Record>, failed: seq<bool>, b: bool, i: nat)
    requires i <= |rs| && i <= |failed|
    ensures Lost(rs, failed + [b], i) == Lost(rs, failed, i)
  {
    if i > 0 { LostStable(rs, failed, b, i - 1); }
  }

  lemma CountsKept(s: State, rs: seq<Record>, a: Action)
    requires Counts(s, rs) && Enabled(s, rs, a)
    ensures Counts(Next(s, rs, a), rs)
  {
  }

  lemma OffsetsKept(s: State, rs: seq<Record>, a: Action)
    requires Counts(s, rs) && OffsetsOk(s, rs) && Enabled(s, rs, a)
    ensures Counts(Next(s, rs, a), rs) && OffsetsOk(Next(s, rs, a), rs)
  {
    CountsKept(s, rs, a);
    if a.Swap? {
      var s' := Next(s, rs, a);
      var b := s'.failed[s.next];
      assert s'.failed == s.failed + [b];
      forall i | 0 <= i <= s.next ensures Lost(rs, s'.failed, i) == Lost(rs, s.failed, i) {
        LostStable(rs, s.failed, b, i);
      }
    }
  }

  lemma ForegroundKeepsIndex(s: State, rs: seq<Record>, a: Action)
    requires Counts(s, rs) && IndexOk(s, rs) && (a.Save? || a.Delete?)
    ensures IndexOk(Next(s, rs, a), rs)
  {
    var s' := Next(s, rs, a);
    forall k | k in s'.want ensures EntryOk(s', rs, k) {
      if k in s.want && k != a.key {
        assert EntryOk(s, rs, k);
        if s.want[k].node.Old? {
          var i :| Follows(s, rs, k, i);
          assert Follows(s', rs, k, i);
        }
      }
    }
  }

  lemma CopyKeepsIndex(s: State, rs: seq<Record>)
    requires Counts(s, rs) && IndexOk(s, rs) && Enabled(s, rs, Copy)
    ensures IndexOk(Next(s, rs, Copy), rs)
  {
    var s' := Next(s, rs, Copy);
    forall k | k in s'.want ensures EntryOk(s', rs, k) {
      assert EntryOk(s, rs, k);
      if s.want[k].node.Old? {
        var i :| Follows(s, rs, k, i);
        assert Follows(s', rs, k, i);
      }
    }
  }

  /** The entry of a key that still follows record `i` when the compare-and-set
      of record `next` has been done. */
  lemma SwapFollows(s: State, rs: seq<Record>, key: Text, i: nat)
    requires Counts(s, rs) && IndexOk(s, rs) && Enabled(s, rs, Swap)
    requires key in s.want && key in s.index && Follows(s, rs, key, i)
    ensures var s' := Next(s, rs, Swap); key in s'.index && key in s'.want && Follows(s', rs, key, i)
  {
    var s' := Next(s, rs, Swap);
    if i == s.next {
      assert s.index[key] == s.want[key] == Entry(Old, OffsetOf(rs, s.next));
    } else {
      assert s.index[key] == Entry(Old, OffsetOf(rs, s.next)) ==> OffsetOf(rs, i) == OffsetOf(rs, s.next);
      if OffsetOf(rs, i) == OffsetOf(rs, s.next) { SameOffset(rs, i, s.next); }
      assert s'.index[key] == s.index[key];
    }
  }

  /** The compare-and-set touches no entry that the foreground wrote. */
  lemma SwapKeepsOthers(s: State, rs: seq<Record>, key: Text)
    requires Counts(s, rs) && IndexOk(s, rs) && Enabled(s, rs, Swap)
    requires key in s.want && key in s.index && s.want[key].node.Other? && s.index[key] == s.want[key]
    ensures var s' := Next(s, rs, Swap); key in s'.index && s'.index[key] == s'.want[key] == s.want[key]
  {
  }

  lemma SwapKeepsIndex(s: State, rs: seq<Record>)
    requires Counts(s, rs) && IndexOk(s, rs) && Enabled(s, rs, Swap)
    ensures IndexOk(Next(s, rs, Swap), rs)
  {
    var s' := Next(s, rs, Swap);
    forall k | k in s'.want ensures k in s'.index && EntryOk(s', rs, k) {
      assert EntryOk(s, rs, k);
      if s.want[k].node.Old? {
        var i :| Follows(s, rs, k, i);
        SwapFollows(s, rs, k, i);
      } else {
        SwapKeepsOthers(s, rs, k);
      }
    }
  }

  lemma StepKeepsInv(s: State, rs: seq<Record>, a: Action)
    requires Inv(s, rs) && Enabled(s, rs, a)
    ensures Inv(Next(s, rs, a), rs)
  {
    OffsetsKept(s, rs, a);
    match a {
      case Save(_, _, _) => ForegroundKeepsIndex(s, rs, a);
      case Delete(_) => ForegroundKeepsIndex(s, rs, a);
      case Copy => CopyKeepsIndex(s, rs);
      case Swap => SwapKeepsIndex(s, rs);
    }
  }

  // ---- runs ----

  predicate Touches(a: Action, key: Text) {
    match a
    case Save(k, _, _) => k == key
    case Delete(k) => k == key
    case _ => false
  }

  /** At the start, an entry for the old file addresses a record of its key. */
  ghost predicate Start(rs: seq<Record>, index: Index) {
    forall k :: k in index ==> index[k].node != New && (index[k].node.Old? ==> AddressesRecord(rs, index[k], k))
  }

  ghost predicate AddressesRecord(rs: seq<Record>, e: Entry, key: Text) {
    exists i :: 0 <= i < |rs| && rs[i].key == key && e == Entry(Old, OffsetOf(rs, i))
  }

  function Begin(index: Index): (s: State) { State(index, index, 0, false, 0, 0, [], [], []) }

  lemma BeginHasInv(rs: seq<Record>, index: Index)
    requires Start(rs, index)
    ensures Inv(Begin(index), rs)
  {
    var s := Begin(index);
    forall k | k in s.want ensures EntryOk(s, rs, k) {
      if index[k].node.Old? {
        assert AddressesRecord(rs, index[k], k);
        var i :| 0 <= i < |rs| && rs[i].key == k && index[k] == Entry(Old, OffsetOf(rs, i));
        assert Follows(s, rs, k, i);
      }
    }
  }

  /** The state after any interleaving of the pass with foreground changes. */
  function Run(rs: seq<Record>, index: Index, acts: seq<Action>): (s: State) {
    if acts == [] then Begin(index)
    else
      var before := Run(rs, index, acts[..|acts| - 1]);
      var a := acts[|acts| - 1];
      if Enabled(before, rs, a) then Next(before, rs, a) else before
  }

  lemma {:induction false} RunHasInv(rs: seq<Record>, index: Index, acts: seq<Action>)
    requires Start(rs, index)
    ensures Inv(Run(rs, index, acts), rs)
  {
    if acts == [] {
      BeginHasInv(rs, index);
    } else {
      var before, a := Run(rs, index, acts[..|acts| - 1]), acts[|acts| - 1];
      RunHasInv(rs, index, acts[..|acts| - 1]);
      if Enabled(before, rs, a) { StepKeepsInv(before, rs, a); }
    }
  }

  /** The index had there been no compaction. */
  function ForegroundOnly(index: Index, acts: seq<Action>): (r: Index) {
    if acts == [] then index
    else ForegroundStep(ForegroundOnly(index, acts[..|acts| - 1]), acts[|acts| - 1])
  }

  function ForegroundStep(index: Index, a: Action): (r: Index) {
    match a
    case Save(key, file, offset) => index[key := Entry(Other(file), offset)]
    case Delete(key) => index - {key}
    case Copy => index
    case Swap => index
  }

  /** Action `j` is the last one that saves or deletes the key. */
  ghost predicate LastTouch(acts: seq<Action>, key: Text, j: int) {
    0 <= j < |acts| && Touches(acts[j], key) && forall i :: j < i < |acts| ==> !Touches(acts[i], key)
  }

  /** The index that the foreground alone makes has the entry last saved, none if the
      key was deleted last, and else the one it had. */
  lemma {:induction false} ForegroundIsLastTouch(index: Index, acts: seq<Action>, key: Text)
    ensures var want := ForegroundOnly(index, acts);
      && (forall j :: LastTouch(acts, key, j) ==>
            if acts[j].Save? then key in want && want[key] == Entry(Other(acts[j].file), acts[j].offset) else key !in want)
      && ((forall i :: 0 <= i < |acts| ==> !Touches(acts[i], key)) ==>
            (key in want <==> key in index) && (key in want ==> want[key] == index[key]))
  {
    if acts != [] {
      var before := acts[..|acts| - 1];
      ForegroundIsLastTouch(index, before, key);
      forall j | LastTouch(acts, key, j) && j < |before| ensures LastTouch(before, key, j) {
        assert forall i :: 0 <= i < |before| ==> before[i] == acts[i];
      }
    }
  }

  lemma StepWants(s: State, rs: seq<Record>, a: Action)
    ensures (if Enabled(s, rs, a) then Next(s, rs, a) else s).want == ForegroundStep(s.want, a)
  {
  }

  lemma {:induction false} RunWants(rs: seq<Record>, index: Index, acts: seq<Action>)
    ensures Run(rs, index, acts).want == ForegroundOnly(index, acts)
  {
    if acts != [] {
      var before := acts[..|acts| - 1];
      RunWants(rs, index, before);
      StepWants(Run(rs, index, before), rs, acts[|acts| - 1]);
    }
  }

  /** In every run, compared with the index had there been no compaction: no key
      is missing and none is back; an entry for another file is as the
      foreground wrote it; and an entry for a record of the old file is as it
      was, or leads to the offset noted for that record's copy. */
  lemma {:induction false} CompactionIsInvisible(rs: seq<Record>, index: Index, acts: seq<Action>)
    requires Start(rs, index)
    ensures var s, want := Run(rs, index, acts), ForegroundOnly(index, acts);
      && s.want == want && s.index.Keys == want.Keys
      && forall k :: k in want ==> EntryOk(s, rs, k)
  {
    RunHasInv(rs, index, acts);
    RunWants(rs, index, acts);
  }

  /** The old entries left when the pass is over are exactly those of records
      whose value is empty. */
  lemma LeftBehind(s: State, rs: seq<Record>, key: Text)
    requires Inv(s, rs) && s.next == |rs|
    ensures key in s.index && s.index[key].node == Old <==>
      key in s.want && s.want[key].node == Old && OfEmptyRecord(rs, s.want[key])
  {
    if key in s.want && s.want[key].node == Old {
      assert EntryOk(s, rs, key);
      var i :| Follows(s, rs, key, i);
      if OfEmptyRecord(rs, s.want[key]) {
        var j :| 0 <= j < |rs| && s.want[key] == Entry(Old, OffsetOf(rs, j)) && |rs[j].value| == 0;
        SameOffset(rs, i, j);
      }
    } else if key in s.want {
      assert EntryOk(s, rs, key);
    }
  }

  ghost predicate OfEmptyRecord(rs: seq<Record>, e: Entry) {
    exists i :: 0 <= i < |rs| && e == Entry(Old, OffsetOf(rs, i)) && |rs[i].value| == 0
  }

  /** After the pass the old file can be dropped exactly when no entry that the
      foreground left alone is for an empty value. */
  lemma {:induction false} NothingDangles(rs: seq<Record>, index: Index, acts: seq<Action>)
    requires Start(rs, index) && Run(rs, index, acts).next == |rs|
    ensures var s := Run(rs, index, acts);
      (forall k :: k in s.index ==> s.index[k].node != Old) <==>
      (forall k :: k in index && index[k].node == Old && OfEmptyRecord(rs, index[k]) ==> Touched(acts, k))
  {
    var s := Run(rs, index, acts);
    RunHasInv(rs, index, acts);
    RunWants(rs, index, acts);
    forall k
      ensures k in s.index && s.index[k].node == Old <==>
              k in index && index[k].node == Old && OfEmptyRecord(rs, index[k]) && !Touched(acts, k)
    {
      LeftBehind(s, rs, k);
      StillOld(index, acts, k);
    }
  }

  /** So nothing is left when the entries are for values that are not empty, as
      all values that clients set. */
  lemma {:induction false} NothingLeftOfClients(rs: seq<Record>, index: Index, acts: seq<Action>)
    requires Start(rs, index) && Run(rs, index, acts).next == |rs|
    requires forall k :: k in index && index[k].node == Old ==> !OfEmptyRecord(rs, index[k])
    ensures var s := Run(rs, index, acts); forall k :: k in s.index ==> s.index[k].node != Old
  {
    NothingDangles(rs, index, acts);
  }

  /** A pass over one empty value leaves its entry behind. */
  lemma {:induction false} EmptyValueDangles(key: Text, rs: seq<Record>, index: Index)
    requires rs == [Record(0, key, [])] && index == map[key := Entry(Old, 0)]
    ensures Start(rs, index)
    ensures var s := Run(rs, index, [Copy, Swap]); s.next == 1 && key in s.index && s.index[key] == Entry(Old, 0)
  {
    assert rs[..0] == [] && OffsetOf(rs, 0) == 0;
    assert rs[0].key == key && AddressesRecord(rs, index[key], key);
    RunMore(rs, index, [], Copy);
    assert [] + [Copy] == [Copy];
    RunMore(rs, index, [Copy], Swap);
    assert [Copy] + [Swap] == [Copy, Swap];
  }

  lemma {:induction false} RunMore(rs: seq<Record>, index: Index, acts: seq<Action>, a: Action)
    requires Enabled(Run(rs, index, acts), rs, a)
    ensures Run(rs, index, acts + [a]) == Next(Run(rs, index, acts), rs, a)
  {
    assert (acts + [a])[..|acts|] == acts;
  }

  predicate Touched(acts: seq<Action>, key: Text) {
    acts != [] && (Touches(acts[|acts| - 1], key) || Touched(acts[..|acts| - 1], key))
  }

  /** An entry for the old file is one that was there and was left alone. */
  lemma {:induction false} StillOld(index: Index, acts: seq<Action>, key: Text)
    ensures var want := ForegroundOnly(index, acts);
      && (key in want && want[key].node == Old <==> key in index && index[key].node == Old && !Touched(acts, key))
      && (key in want && want[key].node == Old ==> want[key] == index[key])
  {
    if acts != [] { StillOld(index, acts[..|acts| - 1], key); }
  }

  /** The pass can always go on until it is over. */
  lemma PassGoesOn(s: State, rs: seq<Record>)
    requires Inv(s, rs)
    ensures s.next < |rs| <==> Enabled(s, rs, if s.copying then Swap else Copy)
  {
  }

  // ---- the objects ----

  /** What reading record `i` meets. */
  lemma {:induction false} Reading(rs: seq<Record>, i: nat)
    requires i <= |rs|
    ensures ReadAt(Log(rs), OffsetOf(rs, i)) == if i < |rs| then Got(rs[i], Size(rs[i])) else Eof
    ensures i < |rs| ==> OffsetOf(rs, i + 1) == OffsetOf(rs, i) + Size(rs[i])
  {
    if i < |rs| { WalkLog(rs, i); } else { assert rs[..i] == rs; }
  }

  class SimpleKVIndex {
    var index: Index

    constructor (index: Index)
      ensures this.index == index
    {
      this.index := index;
    }

    method SaveVal(key: Text, position: Entry) returns (saved: bool)
      modifies this
      ensures saved && index == old(index)[key := position]
    {
      index := index[key := position];
      saved := true;
    }

    method GetVal(key: Text) returns (found: bool, position: Entry)
      ensures found <==> key in index
      ensures found ==> position == index[key]
    {
      if key in index { return true, index[key]; }
      return false, Entry(Old, 0);
    }

    method DelKey(key: Text) returns (found: bool)
      modifies this
      ensures found <==> key in old(index)
      ensures index == old(index) - {key}
    {
      found := key in index;
      index := index - {key};
    }

    /** Replaces a key's entry only if it is still the expected one. */
    method CompareAndSet(key: Text, expected: Entry, position: Entry) returns (done: bool)
      modifies this
      ensures done <==> key in old(index) && old(index)[key] == expected
      ensures index == if done then old(index)[key := position] else old(index)
    {
      done := key in index && index[key] == expected;
      if done { index := index[key := position]; }
    }
  }

  /** A pass over one file, cut where the foreground can come in between. */
  class ReBuild {
    const oldNode: DataNode
    const newNode: DataNode
    const index: SimpleKVIndex
    var offset: nat
    var newOffset: nat
    var size: nat
    var record: Record

    ghost const rs: seq<Record>
    ghost var state: State

    /** The old file holds `rs`, the new one those noted so far, and the pass is at
        record `next`. */
    ghost predicate FilesMatch(next: nat, copying: bool, noted: seq<nat>)
      reads this, oldNode, newNode
    {
      && next + (if copying then 1 else 0) == |noted| <= |rs|
      && oldNode.data == Log(rs) && newNode.data == Log(rs[..|noted|])
      && offset == OffsetOf(rs, |noted|)
      && (copying ==> record == rs[next] && size == Size(record) && newOffset == noted[|noted| - 1])
    }

    /** The objects are what the state says. */
    ghost predicate Matches()
      reads this, oldNode, newNode, index
    {
      && oldNode != newNode
      && Counts(state, rs)
      && index.index == state.index
      && FilesMatch(state.next, state.copying, state.noted)
      && newNode.totalOffset == state.total && |newNode.data| == state.phys
    }

    ghost predicate Valid()
      reads this, oldNode, newNode, index
    {
      Matches() && Inv(state, rs)
    }

    constructor (oldNode: DataNode, index: SimpleKVIndex, ghost rs: seq<Record>)
      requires oldNode.data == Log(rs) && Start(rs, index.index)
      ensures Valid() && this.rs == rs && this.index == index && this.oldNode == oldNode && fresh(newNode)
      ensures state == Begin(index.index)
    {
      var node := new DataNode([]);
      this.oldNode, this.newNode, this.index := oldNode, node, index;
      offset, newOffset, size, record := 0, 0, 0, Record(0, [], []);
      this.rs, state := rs, Begin(index.index);
      BeginHasInv(rs, index.index);
    }

    /** Reads the next record and appends it to the new file; false at the end. */
    method CopyNext() returns (more: bool)
      requires Valid() && !state.copying
      modifies this, oldNode, newNode
      ensures Valid()
      ensures more <==> old(state).next < |rs|
      ensures state == if more then Next(old(state), rs, Copy) else old(state)
    {
      if state.next < |rs| { StepKeepsInv(state, rs, Copy); }
      var n, r := ReadNext();
      more := n > 0;
      if more { CopyRecord(r, n); }
    }

    method ReadNext() returns (n: int, r: Record)
      requires Matches() && !state.copying
      modifies oldNode`pos
      ensures Matches()
      ensures state.next == |rs| ==> n == 0
      ensures state.next < |rs| ==> r == rs[state.next] && n == Size(r) && offset + n == OffsetOf(rs, state.next + 1)
    {
      n, r := oldNode.GetRecord(offset);
      Reading(rs, state.next);
    }

    method CopyRecord(r: Record, n: nat)
      requires Matches() && !state.copying && state.next < |rs|
      requires r == rs[state.next] && n == Size(r) && offset + n == OffsetOf(rs, state.next + 1)
      modifies this, newNode
      ensures Matches() && state == Next(old(state), rs, Copy)
    {
      LogTake(rs, state.next);
      Transfer(r, n);
      state := Next(state, rs, Copy);
    }

    /** The effect of one copy on the objects. */
    method Transfer(r: Record, n: nat)
      requires oldNode != newNode
      modifies this`newOffset, this`record, this`size, this`offset, newNode
      ensures newOffset == old(newNode.totalOffset) && record == r && size == n && offset == old(offset) + n
      ensures newNode.data == old(newNode.data) + Encode(r) && newNode.totalOffset == old(newNode.totalOffset) + Size(r)
    {
      newOffset := newNode.totalOffset;
      record, size, offset := r, n, offset + n;
      var _ := newNode.AppendRecord(r);
    }

    /** Moves the entry of the record just copied, or takes the copy's size back. */
    method SwapNext()
      requires Valid() && state.copying
      modifies this, newNode, index
      ensures Valid() && state == Next(old(state), rs, Swap)
    {
      StepKeepsInv(state, rs, Swap);
      SwapRecord();
    }

    method SwapRecord()
      requires Matches() && state.copying
      modifies this`state, newNode`totalOffset, index
      ensures Matches() && state == Next(old(state), rs, Swap)
    {
      OffsetStep(rs, state.next);
      MoveEntry();
      state := Next(state, rs, Swap);
    }

    /** The effect of the compare-and-set on the objects. */
    method MoveEntry()
      requires size <= offset && size <= newNode.totalOffset
      modifies newNode`totalOffset, index
      ensures var moves := record.key in old(index.index) && old(index.index)[record.key] == Entry(Old, offset - size);
        if |record.value| == 0 then index.index == old(index.index) && newNode.totalOffset == old(newNode.totalOffset)
        else if moves then index.index == old(index.index)[record.key := Entry(New, newOffset)]
                           && newNode.totalOffset == old(newNode.totalOffset)
        else index.index == old(index.index) && newNode.totalOffset == old(newNode.totalOffset) - size
    {
      if |record.value| > 0 {
        var done := index.CompareAndSet(record.key, Entry(Old, offset - size), Entry(New, newOffset));
        if !done {
          newNode.totalOffset := newNode.totalOffset - size;
        }
      }
    }

    /** When the pass is over the file is cut to the size it believes to have. */
    method Truncate()
      requires Valid() && state.next == |rs|
      modifies newNode
      ensures state.total <= |Log(rs)|
      ensures newNode.data == Log(rs)[..state.total] && newNode.totalOffset == state.total
      ensures index.index == state.index
    {
      assert state.total <= state.phys;
      assert rs[..|state.noted|] == rs;
      newNode.data := newNode.data[..newNode.totalOffset];
    }

    method Save(key: Text, file: nat, position: nat)
      requires Valid()
      modifies this`state, index
      ensures Valid() && state == Next(old(state), rs, Action.Save(key, file, position))
      ensures index.index == old(index.index)[key := Entry(Other(file), position)]
    {
      StepKeepsInv(state, rs, Action.Save(key, file, position));
      SaveEntry(key, file, position);
    }

    method SaveEntry(key: Text, file: nat, position: nat)
      requires Matches()
      modifies this`state, index
      ensures Matches() && state == Next(old(state), rs, Action.Save(key, file, position))
      ensures index.index == old(index.index)[key := Entry(Other(file), position)]
    {
      var _ := index.SaveVal(key, Entry(Other(file), position));
      state := Next(state, rs, Action.Save(key, file, position));
    }

    method Delete(key: Text) returns (found: bool)
      requires Valid()
      modifies this`state, index
      ensures Valid() && state == Next(old(state), rs, Action.Delete(key))
      ensures found <==> key in old(state).index
      ensures index.index == old(index.index) - {key}
    {
      StepKeepsInv(state, rs, Action.Delete(key));
      found := DeleteEntry(key);
    }

    method DeleteEntry(key: Text) returns (found: bool)
      requires Matches()
      modifies this`state, index
      ensures Matches() && state == Next(old(state), rs, Action.Delete(key))
      ensures found <==> key in old(state).index
      ensures index.index == old(index.index) - {key}
    {
      found := index.DelKey(key);
      state := Next(state, rs, Action.Delete(key));
    }
  }
}
