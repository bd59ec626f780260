/** What a compaction pass makes of the offsets: where the copies of the records
    are, and whether the entries moved to them find them. */
module CompactedFile {
  import opened Bytes
  import opened RecordLog
  import opened Compaction

  // ---- which compare-and-sets fail ----

  /** How far the pass is: records done, and whether the next one is copied. */
  datatype Progress = Progress(next: nat, copying: bool)

  function Advance(n: nat, p: Progress, a: Action): (q: Progress) {
    match a
    case Copy => if p.next < n then p.(copying := true) else p
    case Swap => if p.copying then Progress(p.next + 1, false) else p
    case Save(_, _, _) => p
    case Delete(_) => p
  }

  /** How far a schedule takes the pass over a file of `n` records. */
  function ProgressOf(n: nat, acts: seq<Action>): (p: Progress) {
    if acts == [] then Progress(0, false)
    else Advance(n, ProgressOf(n, acts[..|acts| - 1]), acts[|acts| - 1])
  }

  lemma {:induction false} RunProgress(rs: seq<Record>, index: Index, acts: seq<Action>)
    requires Start(rs, index)
    ensures var s := Run(rs, index, acts); ProgressOf(|rs|, acts) == Progress(s.next, s.copying)
  {
    if acts != [] {
      RunProgress(rs, index, acts[..|acts| - 1]);
      RunHasInv(rs, index, acts[..|acts| - 1]);
      StepAdvances(Run(rs, index, acts[..|acts| - 1]), rs, acts[|acts| - 1]);
    }
  }

  lemma StepAdvances(s: State, rs: seq<Record>, a: Action)
    requires Counts(s, rs)
    ensures var s' := if Enabled(s, rs, a) then Next(s, rs, a) else s;
      Advance(|rs|, Progress(s.next, s.copying), a) == Progress(s'.next, s'.copying)
  {
  }

  lemma {:induction false} RunCounts(rs: seq<Record>, index: Index, acts: seq<Action>)
    requires Start(rs, index)
    ensures Counts(Run(rs, index, acts), rs) && OffsetsOk(Run(rs, index, acts), rs)
    ensures ProgressOf(|rs|, acts).next == Run(rs, index, acts).next
  {
    RunHasInv(rs, index, acts);
    RunProgress(rs, index, acts);
  }

  /** The place in the schedule of record `j`'s compare-and-set. */
  function SwapPoint(n: nat, acts: seq<Action>, j: nat): (k: nat)
    requires j < ProgressOf(n, acts).next
    ensures k < |acts|
  {
    if j < ProgressOf(n, acts[..|acts| - 1]).next then SwapPoint(n, acts[..|acts| - 1], j) else |acts| - 1
  }

  /** Before the pass the index addresses record `i`. */
  predicate LiveAtStart(rs: seq<Record>, index: Index, i: nat) {
    i < |rs| && rs[i].key in index && index[rs[i].key] == Entry(Old, OffsetOf(rs, i))
  }

  /** The foreground has not touched the key before record `i` has its turn. */
  predicate StillLive(rs: seq<Record>, index: Index, acts: seq<Action>, i: nat)
    requires i < |rs| && i < ProgressOf(|rs|, acts).next
  {
    LiveAtStart(rs, index, i) && !Touched(acts[..SwapPoint(|rs|, acts, i)], rs[i].key)
  }

  /** The pass tries to move every entry of a value that is not empty. */
  predicate Fails(rs: seq<Record>, index: Index, acts: seq<Action>, i: nat)
    requires i < |rs| && i < ProgressOf(|rs|, acts).next
  {
    |rs[i].value| > 0 && !StillLive(rs, index, acts, i)
  }

  /** The compare-and-set of the next record finds its entry exactly when it was
      there at the start and the foreground has left it alone. */
  lemma {:induction false} CurrentExactly(rs: seq<Record>, index: Index, acts: seq<Action>)
    requires Start(rs, index) && Run(rs, index, acts).next < |rs|
    ensures var s := Run(rs, index, acts);
      Current(s, rs) <==> LiveAtStart(rs, index, s.next) && !Touched(acts, rs[s.next].key)
  {
    var s := Run(rs, index, acts);
    var key := rs[s.next].key;
    RunHasInv(rs, index, acts);
    RunWants(rs, index, acts);
    StillOld(index, acts, key);
    CurrentIsWanted(s, rs);
  }

  lemma CurrentIsWanted(s: State, rs: seq<Record>)
    requires Inv(s, rs) && s.next < |rs|
    ensures var key := rs[s.next].key;
      Current(s, rs) <==> key in s.want && s.want[key] == Entry(Old, OffsetOf(rs, s.next))
  {
    var key := rs[s.next].key;
    if key in s.want {
      assert EntryOk(s, rs, key);
      if s.want[key].node.Old? {
        var i :| Follows(s, rs, key, i);
        if OffsetOf(rs, i) == OffsetOf(rs, s.next) { SameOffset(rs, i, s.next); }
      }
    }
  }

  /** The outcome of each compare-and-set, from the file, the index before the
      pass and the foreground's changes alone. */
  lemma {:induction false} FailedExactly(rs: seq<Record>, index: Index, acts: seq<Action>, j: nat)
    requires Start(rs, index) && j < ProgressOf(|rs|, acts).next
    ensures j < |rs| && j < |Run(rs, index, acts).failed|
    ensures Run(rs, index, acts).failed[j] <==> Fails(rs, index, acts, j)
  {
    var before := acts[..|acts| - 1];
    RunCounts(rs, index, acts);
    RunCounts(rs, index, before);
    FailedStep(Run(rs, index, before), rs, acts[|acts| - 1]);
    if j < ProgressOf(|rs|, before).next {
      FailedExactly(rs, index, before, j);
      FailsStable(rs, index, acts, j);
    } else {
      CurrentExactly(rs, index, before);
    }
  }

  lemma FailedStep(s: State, rs: seq<Record>, a: Action)
    requires Counts(s, rs)
    ensures var s' := if Enabled(s, rs, a) then Next(s, rs, a) else s;
      && s.failed <= s'.failed
      && (s'.next > s.next ==>
            && a.Swap? && s'.next == s.next + 1 && s.next < |rs|
            && s'.failed == s.failed + [|rs[s.next].value| > 0 && !Current(s, rs)])
  {
  }

  lemma {:induction false} FailsStable(rs: seq<Record>, index: Index, acts: seq<Action>, j: nat)
    requires acts != [] && j < |rs| && j < ProgressOf(|rs|, acts[..|acts| - 1]).next && j < ProgressOf(|rs|, acts).next
    ensures Fails(rs, index, acts, j) <==> Fails(rs, index, acts[..|acts| - 1], j)
  {
    var k := SwapPoint(|rs|, acts[..|acts| - 1], j);
    assert acts[..k] == acts[..|acts| - 1][..k];
  }

  // ---- where the copies are ----

  lemma {:induction false} LostNothing(rs: seq<Record>, failed: seq<bool>, i: nat)
    requires i <= |rs| && i <= |failed|
    ensures Lost(rs, failed, i) == 0 <==> forall j :: 0 <= j < i ==> !failed[j]
  {
    if i > 0 { LostNothing(rs, failed, i - 1); }
  }

  /** A copy's bytes lie where the record's bytes lay in the old file. */
  ghost predicate PlacesKept(s: State, rs: seq<Record>) {
    && |s.noted| <= |rs| && s.phys == OffsetOf(rs, |s.noted|)
    && |s.placed| == |s.noted| && forall i :: 0 <= i < |s.placed| ==> s.placed[i] == OffsetOf(rs, i)
  }

  lemma StepKeepsPlaces(s: State, rs: seq<Record>, a: Action)
    requires PlacesKept(s, rs) && Counts(s, rs) && Enabled(s, rs, a)
    ensures PlacesKept(Next(s, rs, a), rs)
  {
    if a.Copy? { OffsetStep(rs, s.next); }
  }

  lemma {:induction false} RunKeepsPlaces(rs: seq<Record>, index: Index, acts: seq<Action>)
    requires Start(rs, index)
    ensures PlacesKept(Run(rs, index, acts), rs)
  {
    if acts != [] {
      var before, a := Run(rs, index, acts[..|acts| - 1]), acts[|acts| - 1];
      RunKeepsPlaces(rs, index, acts[..|acts| - 1]);
      RunHasInv(rs, index, acts[..|acts| - 1]);
      if Enabled(before, rs, a) { StepKeepsPlaces(before, rs, a); }
    }
  }

  lemma {:induction false} LostAtMost(rs: seq<Record>, failed: seq<bool>, i: nat, n: nat)
    requires i <= n <= |rs| && n <= |failed|
    ensures Lost(rs, failed, n) - Lost(rs, failed, i) <= OffsetOf(rs, n) - OffsetOf(rs, i)
  {
    if i < n {
      LostAtMost(rs, failed, i, n - 1);
      OffsetStep(rs, n - 1);
    }
  }

  /** Is the whole copy of record `i` in the truncated file, at the offset noted
      for it? */
  ghost predicate CopyIsThere(s: State, rs: seq<Record>, i: nat) {
    && i < |rs| && i < |s.noted| && s.noted[i] == OffsetOf(rs, i) && s.noted[i] + Size(rs[i]) <= s.total
  }

  lemma {:induction false} LogStarts(rs: seq<Record>, i: nat) returns (rest: seq<byte>)
    requires i < |rs|
    ensures Log(rs) == Log(rs[..i]) + Encode(rs[i]) + rest
  {
    var last := |rs| - 1;
    if i == last {
      rest := [];
    } else {
      var more := LogStarts(rs[..last], i);
      assert rs[..last][..i] == rs[..i];
      rest := more + Encode(rs[last]);
    }
  }

  /** And then a look-up reads from the truncated file the record that it read
      from the old file. */
  lemma {:induction false} CopyReadsBack(s: State, rs: seq<Record>, i: nat)
    requires CopyIsThere(s, rs, i) && s.total <= |Log(rs)|
    ensures ReadAt(Log(rs)[..s.total], s.noted[i]) == ReadAt(Log(rs), OffsetOf(rs, i)) == Got(rs[i], Size(rs[i]))
  {
    var rest := LogStarts(rs, i);
    ReadWritten(Log(rs[..i]), rs[i], rest);
    var kept := rest[..s.total - OffsetOf(rs, i) - Size(rs[i])];
    assert Log(rs)[..s.total] == Log(rs[..i]) + Encode(rs[i]) + kept;
    ReadWritten(Log(rs[..i]), rs[i], kept);
  }

  /** The offset noted for a copy is where its bytes are exactly when every
      earlier record with a value was still live when its turn came. */
  lemma {:induction false} NotedIsPlaced(rs: seq<Record>, index: Index, acts: seq<Action>, i: nat)
    requires Start(rs, index) && i < |Run(rs, index, acts).noted|
    ensures i <= |rs| && i <= ProgressOf(|rs|, acts).next
    ensures var s := Run(rs, index, acts);
      && i < |s.placed| && s.noted[i] <= s.placed[i]
      && (s.noted[i] == s.placed[i] <==> forall j :: 0 <= j < i ==> !Fails(rs, index, acts, j))
  {
    RunCounts(rs, index, acts);
    LostNothing(rs, Run(rs, index, acts).failed, i);
    forall j | 0 <= j < i ensures Run(rs, index, acts).failed[j] <==> Fails(rs, index, acts, j) {
      FailedExactly(rs, index, acts, j);
    }
  }

  /** After the pass, the whole copy of a record that did not fail is where it was
      noted to be, in the truncated file, exactly when no earlier one failed. */
  lemma {:induction false} CopyIsThereExactly(rs: seq<Record>, index: Index, acts: seq<Action>, i: nat)
    requires Start(rs, index) && ProgressOf(|rs|, acts).next == |rs|
    requires i < |rs| && !Fails(rs, index, acts, i)
    ensures CopyIsThere(Run(rs, index, acts), rs, i) <==> forall j :: 0 <= j < i ==> !Fails(rs, index, acts, j)
  {
    RunCounts(rs, index, acts);
    RunKeepsPlaces(rs, index, acts);
    NotedIsPlaced(rs, index, acts, i);
    FailedExactly(rs, index, acts, i);
    CopyFits(Run(rs, index, acts), rs, i);
  }

  /** A copy noted where it is placed is whole in the truncated file. */
  lemma CopyFits(s: State, rs: seq<Record>, i: nat)
    requires Counts(s, rs) && OffsetsOk(s, rs) && PlacesKept(s, rs) && s.next == |rs| && i < |rs| && !s.failed[i]
    ensures CopyIsThere(s, rs, i) <==> s.noted[i] == s.placed[i]
  {
    LostStep(rs, s.failed, i);
    LostAtMost(rs, s.failed, i + 1, |rs|);
    OffsetStep(rs, i);
  }

  lemma LostStep(rs: seq<Record>, failed: seq<bool>, i: nat)
    requires i < |rs| && i < |failed| && !failed[i]
    ensures Lost(rs, failed, i + 1) == Lost(rs, failed, i)
  {
  }

  /** A key that the index had at record `i`, with a value, and that the
      foreground leaves alone, leads into the new file; to its copy exactly when
      every earlier record with a value was still live when its turn came. */
  lemma {:induction false} MovedEntryFindsCopy(rs: seq<Record>, index: Index, acts: seq<Action>, i: nat)
    requires Start(rs, index) && ProgressOf(|rs|, acts).next == |rs|
    requires LiveAtStart(rs, index, i) && |rs[i].value| > 0 && !Touched(acts, rs[i].key)
    ensures var s, key := Run(rs, index, acts), rs[i].key;
      && i < |s.noted| && key in s.index && s.index[key] == Entry(New, s.noted[i])
      && (CopyIsThere(s, rs, i) <==> forall j :: 0 <= j < i ==> !Fails(rs, index, acts, j))
  {
    RunCounts(rs, index, acts);
    EntryMoved(rs, index, acts, i);
    TouchedPrefix(acts, SwapPoint(|rs|, acts, i), rs[i].key);
    CopyIsThereExactly(rs, index, acts, i);
  }

  lemma {:induction false} EntryMoved(rs: seq<Record>, index: Index, acts: seq<Action>, i: nat)
    requires Start(rs, index) && Run(rs, index, acts).next == |rs|
    requires LiveAtStart(rs, index, i) && |rs[i].value| > 0 && !Touched(acts, rs[i].key)
    ensures var s, key := Run(rs, index, acts), rs[i].key;
      i < |s.noted| && key in s.index && s.index[key] == Entry(New, s.noted[i])
  {
    var s, key := Run(rs, index, acts), rs[i].key;
    RunHasInv(rs, index, acts);
    RunWants(rs, index, acts);
    StillOld(index, acts, key);
    assert EntryOk(s, rs, key);
    var h :| Follows(s, rs, key, h);
    SameOffset(rs, h, i);
  }

  lemma {:induction false} TouchedPrefix(acts: seq<Action>, k: nat, key: Text)
    requires k <= |acts| && !Touched(acts, key)
    ensures !Touched(acts[..k], key)
  {
    if k < |acts| {
      TouchedPrefix(acts[..|acts| - 1], k, key);
      assert acts[..|acts| - 1][..k] == acts[..k];
    } else {
      assert acts[..k] == acts;
    }
  }

  /** The foreground does nothing while the pass runs. */
  predicate Quiet(acts: seq<Action>) { forall k :: 0 <= k < |acts| ==> acts[k].Copy? || acts[k].Swap? }

  lemma {:induction false} QuietTouchesNothing(acts: seq<Action>, key: Text)
    requires Quiet(acts)
    ensures !Touched(acts, key)
  {
    if acts != [] { QuietTouchesNothing(acts[..|acts| - 1], key); }
  }

  /** Steps that the pass has yet to do. */
  function StepsLeft(s: State, rs: seq<Record>): (n: int) { 2 * (|rs| - s.next) - if s.copying then 1 else 0 }

  lemma {:induction false} PassStep(s: State, rs: seq<Record>, a: Action)
    requires Inv(s, rs) && s.next < |rs| && a == if s.copying then Swap else Copy
    ensures Enabled(s, rs, a) && StepsLeft(Next(s, rs, a), rs) == StepsLeft(s, rs) - 1
  {
    PassGoesOn(s, rs);
  }

  lemma {:induction false} OneMorePassStep(rs: seq<Record>, index: Index, acts: seq<Action>) returns (a: Action)
    requires Start(rs, index) && Run(rs, index, acts).next < |rs|
    ensures a.Copy? || a.Swap?
    ensures StepsLeft(Run(rs, index, acts + [a]), rs) == StepsLeft(Run(rs, index, acts), rs) - 1
  {
    var s := Run(rs, index, acts);
    a := if s.copying then Swap else Copy;
    RunHasInv(rs, index, acts);
    PassStep(s, rs, a);
    RunMore(rs, index, acts, a);
  }

  /** Whatever has happened so far, the pass can go on to its end. */
  lemma {:induction false} PassCanFinish(rs: seq<Record>, index: Index, acts: seq<Action>) returns (more: seq<Action>)
    requires Start(rs, index)
    ensures Quiet(more) && Run(rs, index, acts + more).next == |rs|
    decreases StepsLeft(Run(rs, index, acts), rs)
  {
    RunCounts(rs, index, acts);
    if Run(rs, index, acts).next == |rs| {
      more := [];
      assert acts + more == acts;
    } else {
      var a := OneMorePassStep(rs, index, acts);
      var rest := PassCanFinish(rs, index, acts + [a]);
      more := [a] + rest;
      assert acts + more == acts + [a] + rest;
    }
  }

  /** Even then a live record's copy is found only if no record with a value
      before it is dead. */
  lemma {:induction false} QuietPass(rs: seq<Record>, index: Index, acts: seq<Action>, i: nat)
    requires Start(rs, index) && ProgressOf(|rs|, acts).next == |rs| && Quiet(acts)
    requires LiveAtStart(rs, index, i) && |rs[i].value| > 0
    ensures CopyIsThere(Run(rs, index, acts), rs, i) <==>
      forall j :: 0 <= j < i ==> |rs[j].value| == 0 || LiveAtStart(rs, index, j)
  {
    QuietTouchesNothing(acts, rs[i].key);
    MovedEntryFindsCopy(rs, index, acts, i);
    forall j | 0 <= j < i ensures Fails(rs, index, acts, j) <==> |rs[j].value| > 0 && !LiveAtStart(rs, index, j) {
      QuietTouchesNothing(acts[..SwapPoint(|rs|, acts, j)], rs[j].key);
    }
  }

  lemma {:induction false} TotalFits(s: State, rs: seq<Record>)
    requires Counts(s, rs) && OffsetsOk(s, rs) && PlacesKept(s, rs) && s.next == |rs|
    ensures s.total == |Log(rs)| - Lost(rs, s.failed, |rs|)
  {
    assert rs[..|rs|] == rs;
  }

  /** The truncated file is shorter than the old one by the records that failed. */
  lemma {:induction false} TotalExactly(rs: seq<Record>, index: Index, acts: seq<Action>)
    requires Start(rs, index) && ProgressOf(|rs|, acts).next == |rs|
    ensures var s := Run(rs, index, acts); |s.failed| == |rs| && s.total == |Log(rs)| - Lost(rs, s.failed, |rs|)
  {
    RunCounts(rs, index, acts);
    RunKeepsPlaces(rs, index, acts);
    TotalFits(Run(rs, index, acts), rs);
  }

  /** Where the copy is found, a look-up reads from the truncated file the record
      that it read from the old one. */
  lemma {:induction false} LookupAfterPass(rs: seq<Record>, index: Index, acts: seq<Action>, i: nat)
    requires Start(rs, index) && ProgressOf(|rs|, acts).next == |rs|
    requires LiveAtStart(rs, index, i) && |rs[i].value| > 0 && !Touched(acts, rs[i].key)
    requires forall j :: 0 <= j < i ==> !Fails(rs, index, acts, j)
    ensures var s, key := Run(rs, index, acts), rs[i].key;
      && s.total <= |Log(rs)| && key in s.index && s.index[key].node == New
      && ReadAt(Log(rs)[..s.total], s.index[key].offset) == ReadAt(Log(rs), index[key].offset) == Got(rs[i], Size(rs[i]))
  {
    var s := Run(rs, index, acts);
    RunCounts(rs, index, acts);
    RunKeepsPlaces(rs, index, acts);
    TotalFits(s, rs);
    MovedEntryFindsCopy(rs, index, acts, i);
    CopyReadsBack(s, rs, i);
  }

  // ---- two passes that go wrong ----

  /** What is done, and then a pass over two records. */
  function ThenPass(acts: seq<Action>): (more: seq<Action>) { acts + [Copy] + [Swap] + [Copy] + [Swap] }

  /** What goes wrong with two records of the same size, the second one live. */
  ghost predicate SecondReadsFirst(a: Record, b: Record, index: Index, acts: seq<Action>) {
    && Start([a, b], index)
    && var s := Run([a, b], index, acts);
       && s.next == 2 && b.key in s.index && s.index[b.key] == Entry(New, 0)
       && s.total == Size(a) <= |Log([a, b])| && ReadAt(Log([a, b])[..s.total], 0) == Got(a, Size(a))
  }

  /** Two records of the same size, and nobody but the pass: if the first one is
      dead, the key of the second one then reads the first record. With equal keys it
      reads the value it had before the last one. */
  lemma {:induction false} QuietPassMisreads(a: Record, b: Record, index: Index)
    requires |a.value| > 0 && |b.value| > 0 && Size(a) == Size(b)
    requires index == map[b.key := Entry(Old, Size(a))]
    ensures SecondReadsFirst(a, b, index, ThenPass([]))
  {
    PairOffsets(a, b);
    assert [a, b][1].key == b.key && AddressesRecord([a, b], index[b.key], b.key);
    PairPass(a, b, index, []);
  }

  /** The same when the first one is live and its key is saved before its turn. */
  lemma {:induction false} MisplacedCopyIsRead(a: Record, b: Record, index: Index)
    requires a.key != b.key && |a.value| > 0 && |b.value| > 0 && Size(a) == Size(b)
    requires index == map[a.key := Entry(Old, 0), b.key := Entry(Old, Size(a))]
    ensures SecondReadsFirst(a, b, index, ThenPass([Save(a.key, 0, 0)]))
  {
    var save := Save(a.key, 0, 0);
    PairStarts(a, b, index);
    RunMore([a, b], index, [], save);
    assert [] + [save] == [save];
    PairPass(a, b, index, [save]);
  }

  lemma PairOffsets(a: Record, b: Record)
    ensures OffsetOf([a, b], 0) == 0 && OffsetOf([a, b], 1) == Size(a)
    ensures Log([a, b]) == Encode(a) + Encode(b)
  {
    assert [a, b][..0] == [] && [a, b][..1] == [a] && [a][..0] == [];
    assert Log([a]) == [] + Encode(a);
  }

  lemma PairStarts(a: Record, b: Record, index: Index)
    requires a.key != b.key && index == map[a.key := Entry(Old, 0), b.key := Entry(Old, Size(a))]
    ensures Start([a, b], index)
  {
    PairOffsets(a, b);
    var rs := [a, b];
    assert rs[0].key == a.key && AddressesRecord(rs, index[a.key], a.key);
    assert rs[1].key == b.key && AddressesRecord(rs, index[b.key], b.key);
  }

  lemma FirstIsRead(a: Record, b: Record)
    ensures Size(a) <= |Log([a, b])| && ReadAt(Log([a, b])[..Size(a)], 0) == Got(a, Size(a))
  {
    PairOffsets(a, b);
    assert Log([a, b])[..Size(a)] == [] + Encode(a) + [];
    ReadWritten([], a, []);
  }

  /** The second record is live, the first one is not, and the pass is at record `i`. */
  ghost predicate OnlySecondLive(s: State, a: Record, b: Record, i: nat) {
    && s.next == i && !s.copying && s.total == 0
    && b.key in s.index && s.index[b.key] == Entry(Old, Size(a))
    && (a.key in s.index ==> s.index[a.key] != Entry(Old, 0))
  }

  lemma {:induction false} PairPass(a: Record, b: Record, index: Index, acts: seq<Action>)
    requires |a.value| > 0 && |b.value| > 0 && Size(a) == Size(b)
    requires Start([a, b], index) && OnlySecondLive(Run([a, b], index, acts), a, b, 0)
    ensures SecondReadsFirst(a, b, index, ThenPass(acts))
  {
    PairOffsets(a, b);
    FirstCopyLost(a, b, index, acts);
    SecondCopyMisplaced(a, b, index, acts + [Copy] + [Swap]);
    FirstIsRead(a, b);
  }

  /** The failed compare-and-set takes the first copy's size back. */
  lemma {:induction false} FirstCopyLost(a: Record, b: Record, index: Index, acts: seq<Action>)
    requires |a.value| > 0 && OffsetOf([a, b], 0) == 0
    requires Start([a, b], index) && OnlySecondLive(Run([a, b], index, acts), a, b, 0)
    ensures OnlySecondLive(Run([a, b], index, acts + [Copy] + [Swap]), a, b, 1)
  {
    RunMore([a, b], index, acts, Copy);
    RunMore([a, b], index, acts + [Copy], Swap);
  }

  /** So the second copy is noted where the first one lies. */
  lemma {:induction false} SecondCopyMisplaced(a: Record, b: Record, index: Index, acts: seq<Action>)
    requires |b.value| > 0 && OffsetOf([a, b], 1) == Size(a)
    requires Start([a, b], index) && OnlySecondLive(Run([a, b], index, acts), a, b, 1)
    ensures var s := Run([a, b], index, acts + [Copy] + [Swap]);
      s.next == 2 && b.key in s.index && s.index[b.key] == Entry(New, 0) && s.total == Size(b)
  {
    RunMore([a, b], index, acts, Copy);
    RunMore([a, b], index, acts + [Copy], Swap);
  }
}
