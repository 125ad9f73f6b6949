/** The store seen from afar: times and hashes only. What a sequence of runs leaves in
    it, compared with everything that was ever fetched. */
module History {
  import opened Wrappers
  import opened Clock

  datatype Snap = Snap(at: int, sha: string)

  /** What one run does: nothing, a save, or a save followed by retention. */
  datatype Op =
    | Skip
    | Record(snap: Snap)
    | RecordAndPrune(snap: Snap, days: nat, minCopies: nat, now: int)

  function Save(st: seq<Snap>, s: Snap): seq<Snap> {
    if st != [] && st[|st| - 1].sha == s.sha then st else st + [s]
  }

  function Recent(st: seq<Snap>, cutoff: int): (n: nat)
    ensures n <= |st|
  {
    if st == [] then 0 else (if st[0].at >= cutoff then 1 else 0) + Recent(st[1..], cutoff)
  }

  function Kept(st: seq<Snap>, days: nat, minCopies: nat, now: int): (k: nat)
    ensures k <= |st|
    ensures minCopies >= 1 && st != [] ==> k >= 1
  {
    var copies := if minCopies < |st| then minCopies else |st|;
    var recent := Recent(st, now - days * DAY);
    if copies < recent then recent else copies
  }

  function Prune(st: seq<Snap>, days: nat, minCopies: nat, now: int): seq<Snap> {
    st[|st| - Kept(st, days, minCopies, now)..]
  }

  function Apply(st: seq<Snap>, op: Op): seq<Snap> {
    match op
    case Skip => st
    case Record(s) => Save(st, s)
    case RecordAndPrune(s, days, minCopies, now) => Prune(Save(st, s), days, minCopies, now)
  }

  /** The store after all of `ops`, from an empty one. */
  function Store(ops: seq<Op>): seq<Snap> {
    if ops == [] then [] else Apply(Store(ops[..|ops| - 1]), ops[|ops| - 1])
  }

  /** Everything fetched in `ops`, stored or not. */
  function Fetched(ops: seq<Op>): seq<Snap> {
    if ops == [] then []
    else
      var before, op := Fetched(ops[..|ops| - 1]), ops[|ops| - 1];
      if op.Skip? then before else before + [op.snap]
  }

  /** Run-length compression: the first of each maximal block of equal hashes. */
  function Rle(xs: seq<Snap>): seq<Snap> {
    if xs == [] then []
    else
      var n := |xs| - 1;
      var before := Rle(xs[..n]);
      if n > 0 && xs[n - 1].sha == xs[n].sha then before else before + [xs[n]]
  }

  /** What retention needs to leave something: a minimum of one copy, or a newest backup
      that is not older than the cutoff. */
  predicate LeavesSomething(st: seq<Snap>, op: Op)
    requires op.RecordAndPrune?
  {
    var saved := Save(st, op.snap);
    op.minCopies >= 1 || saved[|saved| - 1].at >= op.now - op.days * DAY
  }

  /** Every run's retention finds that. */
  predicate NeverEmptied(ops: seq<Op>) {
    forall n :: 0 <= n < |ops| && ops[n].RecordAndPrune? ==> LeavesSomething(Store(ops[..n]), ops[n])
  }

  ghost predicate Increasing(xs: seq<Snap>) {
    forall i, j :: 0 <= i < j < |xs| ==> xs[i].at < xs[j].at
  }

  ghost predicate IsSuffix(a: seq<Snap>, b: seq<Snap>) {
    |a| <= |b| && a == b[|b| - |a|..]
  }

  // ----- The store is a recent suffix of the compressed history -----

  lemma {:induction false} RleEndsAlike(xs: seq<Snap>)
    requires xs != []
    ensures Rle(xs) != [] && Rle(xs)[|Rle(xs)| - 1].sha == xs[|xs| - 1].sha
  {
    var n := |xs| - 1;
    if n > 0 { RleEndsAlike(xs[..n]); }
  }

  lemma RleAppend(xs: seq<Snap>, s: Snap)
    ensures Rle(xs + [s]) == if xs != [] && xs[|xs| - 1].sha == s.sha then Rle(xs) else Rle(xs) + [s]
  {
    var ys := xs + [s];
    assert ys[..|xs|] == xs && ys[|xs|] == s;
  }

  lemma SuffixAppend(a: seq<Snap>, b: seq<Snap>, s: Snap)
    requires IsSuffix(a, b)
    ensures IsSuffix(a + [s], b + [s])
    ensures a != [] ==> a[|a| - 1] == b[|b| - 1]
  {
  }

  lemma SaveKeepsSuffix(st: seq<Snap>, xs: seq<Snap>, s: Snap)
    requires IsSuffix(st, Rle(xs)) && (xs != [] ==> st != [])
    ensures IsSuffix(Save(st, s), Rle(xs + [s])) && Save(st, s) != []
  {
    hide Rle, IsSuffix;
    RleAppend(xs, s);
    SuffixAppend(st, Rle(xs), s);
    if xs != [] {
      RleEndsAlike(xs);
    } else {
      SuffixOfNothing(st);
    }
  }

  lemma SuffixOfSuffix(a: seq<Snap>, b: seq<Snap>, k: nat)
    requires IsSuffix(a, b) && k <= |a|
    ensures IsSuffix(a[k..], b)
  {
  }

  lemma {:induction false} RecentNewest(st: seq<Snap>, cutoff: int)
    ensures st != [] && st[|st| - 1].at >= cutoff ==> Recent(st, cutoff) >= 1
    ensures Recent(st, cutoff) >= 1 ==> exists s <- st :: s.at >= cutoff
  {
    if st != [] { RecentNewest(st[1..], cutoff); }
  }

  /** Retention deletes everything exactly when no copy has to be kept and the newest backup
      is older than the cutoff. */
  lemma PruneEmptiesExactly(st: seq<Snap>, days: nat, minCopies: nat, now: int)
    requires Increasing(st) && st != []
    ensures Prune(st, days, minCopies, now) == [] <==> minCopies == 0 && st[|st| - 1].at < now - days * DAY
  {
    RecentNewest(st, now - days * DAY);
  }

  /** Where the pruned store starts in the saved one. */
  lemma ApplyDrops(st: seq<Snap>, op: Op) returns (k: nat)
    requires !op.Skip?
    ensures k <= |Save(st, op.snap)| && Apply(st, op) == Save(st, op.snap)[k..]
    ensures (op.RecordAndPrune? ==> LeavesSomething(st, op)) ==> Apply(st, op) != []
  {
    var saved := Save(st, op.snap);
    if op.RecordAndPrune? { RecentNewest(saved, op.now - op.days * DAY); }
    k := if op.Record? then 0 else |saved| - Kept(saved, op.days, op.minCopies, op.now);
  }

  lemma NeverEmptiedPrefix(ops: seq<Op>, n: nat)
    requires n <= |ops| && NeverEmptied(ops)
    ensures NeverEmptied(ops[..n])
  {
    hide Store, LeavesSomething;
    var before := ops[..n];
    assert forall i :: 0 <= i < n ==> before[i] == ops[i] && before[..i] == ops[..i];
  }

  /** As long as no run empties it, the store is a suffix of the compressed history of
      fetches, and not empty once anything was fetched. */
  lemma {:induction false} StoreIsSuffixOfRle(ops: seq<Op>)
    requires NeverEmptied(ops)
    ensures IsSuffix(Store(ops), Rle(Fetched(ops)))
    ensures Fetched(ops) != [] ==> Store(ops) != []
  {
    hide Save, Apply, Rle;
    if ops == [] {
      SuffixOfNothing([]);
    } else {
      var before, op := ops[..|ops| - 1], ops[|ops| - 1];
      NeverEmptiedPrefix(ops, |ops| - 1);
      StoreIsSuffixOfRle(before);
      if op.Skip? {
        SkipChangesNothing(Store(before));
      } else {
        SaveKeepsSuffix(Store(before), Fetched(before), op.snap);
        var k := ApplyDrops(Store(before), op);
        SuffixOfSuffix(Save(Store(before), op.snap), Rle(Fetched(ops)), k);
      }
    }
  }

  lemma SuffixOfNothing(st: seq<Snap>)
    ensures IsSuffix(st, Rle([])) <==> st == []
  {
  }

  lemma {:induction false} RleHasNoRepeats(xs: seq<Snap>)
    ensures forall i :: 0 < i < |Rle(xs)| ==> Rle(xs)[i - 1].sha != Rle(xs)[i].sha
  {
    if xs != [] {
      var n := |xs| - 1;
      RleHasNoRepeats(xs[..n]);
      if n > 0 { RleEndsAlike(xs[..n]); }
    }
  }

  /** Neighbours in the store never have the same hash. */
  lemma StoreHasNoRepeats(ops: seq<Op>)
    requires NeverEmptied(ops)
    ensures forall i :: 0 < i < |Store(ops)| ==> Store(ops)[i - 1].sha != Store(ops)[i].sha
  {
    var xs := Fetched(ops);
    StoreIsSuffixOfRle(ops);
    RleHasNoRepeats(xs);
    var d := |Rle(xs)| - |Store(ops)|;
    forall i | 0 < i < |Store(ops)| ensures Store(ops)[i - 1].sha != Store(ops)[i].sha {
      assert Rle(xs)[d + i - 1].sha != Rle(xs)[d + i].sha;
    }
  }

  ghost predicate IsRecentHistory(ops: seq<Op>) {
    IsSuffix(Store(ops), Rle(Fetched(ops))) && (Fetched(ops) != [] ==> Store(ops) != [])
  }

  /** At every point of a history the store is a suffix of the compressed fetches, and not
      empty once anything was fetched, exactly when every run's retention had a copy to keep
      or found the newest backup not older than its cutoff. */
  lemma RecentHistoryExactly(ops: seq<Op>)
    requires Increasing(Fetched(ops))
    ensures (forall n :: 0 <= n <= |ops| ==> IsRecentHistory(ops[..n])) <==> NeverEmptied(ops)
  {
    hide Store, Rle, Fetched, LeavesSomething, IsSuffix;
    if NeverEmptied(ops) {
      forall n | 0 <= n <= |ops| ensures IsRecentHistory(ops[..n]) {
        NeverEmptiedPrefix(ops, n);
        StoreIsSuffixOfRle(ops[..n]);
      }
    } else {
      var n :| 0 <= n < |ops| && ops[n].RecordAndPrune? && !LeavesSomething(Store(ops[..n]), ops[n]);
      FetchedPrefix(ops, n + 1);
      assert ops[..n + 1][..n] == ops[..n] && ops[..n + 1][n] == ops[n];
      EmptiedRun(ops[..n + 1]);
      assert !IsRecentHistory(ops[..n + 1]);
    }
  }

  lemma {:induction false} FetchedPrefix(ops: seq<Op>, n: nat)
    requires n <= |ops| && Increasing(Fetched(ops))
    ensures Increasing(Fetched(ops[..n]))
    decreases |ops|
  {
    hide Increasing, Fetched;
    if n < |ops| {
      IncreasingPrefix(ops);
      FetchedPrefix(ops[..|ops| - 1], n);
      assert ops[..|ops| - 1][..n] == ops[..n];
    } else {
      assert ops[..n] == ops;
    }
  }

  lemma EmptiedRun(ops: seq<Op>)
    requires ops != [] && Increasing(Fetched(ops))
    requires var n := |ops| - 1; ops[n].RecordAndPrune? && !LeavesSomething(Store(ops[..n]), ops[n])
    ensures Store(ops) == [] && Fetched(ops) != []
  {
    hide Increasing, Save, Prune, LeavesSomething, Rle;
    var before, op := ops[..|ops| - 1], ops[|ops| - 1];
    IncreasingPrefix(ops);
    SavedIsIncreasing(before, op.snap);
    EmptiedPrune(Store(before), op);
  }

  lemma EmptiedPrune(st: seq<Snap>, op: Op)
    requires op.RecordAndPrune? && Increasing(Save(st, op.snap)) && !LeavesSomething(st, op)
    ensures Apply(st, op) == []
  {
    hide Increasing, Save, Prune;
    SaveEnds(st, op.snap);
    PruneEmptiesExactly(Save(st, op.snap), op.days, op.minCopies, op.now);
  }

  /** A run that finds nothing new can delete the only copy of the unchanged configuration:
      without a minimum, and with that copy, which the run before it had kept, now older
      than the cutoff. */
  lemma NoChangeMayEmpty(first: Snap, again: Snap, days: nat, before: int, now: int)
    requires again.sha == first.sha && before - days * DAY <= first.at < now - days * DAY
    ensures var one := [RecordAndPrune(first, days, 0, before)];
            Store(one) == [first] && Store(one + [RecordAndPrune(again, days, 0, now)]) == []
  {
    var one, op := [RecordAndPrune(first, days, 0, before)], RecordAndPrune(again, days, 0, now);
    var both := one + [op];
    assert one[..0] == [] && Store([]) == [] && Save([], first) == [first] && Save([first], again) == [first];
    assert both[..1] == one && both[1] == op;
    PruneEmptiesExactly([first], days, 0, before);
    PruneEmptiesExactly([first], days, 0, now);
    hide Save, Recent;
  }

  // ----- Nothing inside the retained window is lost -----

  /** The newest stored snapshot at or before `t`. */
  function Lookup(st: seq<Snap>, t: int): Option<Snap> {
    if st == [] then None
    else if st[|st| - 1].at <= t then Some(st[|st| - 1])
    else Lookup(st[..|st| - 1], t)
  }

  lemma {:induction false} StoreIsFetched(ops: seq<Op>)
    ensures forall s <- Store(ops) :: s in Fetched(ops)
    ensures |Store(ops)| <= |Fetched(ops)| <= |ops|
  {
    if ops != [] { StoreIsFetched(ops[..|ops| - 1]); }
  }

  lemma IncreasingInit(xs: seq<Snap>, s: Snap)
    requires Increasing(xs + [s])
    ensures Increasing(xs) && forall y <- xs :: y.at < s.at
  {
    var ys := xs + [s];
    assert forall i :: 0 <= i < |xs| ==> ys[i] == xs[i];
    assert ys[|xs|] == s;
  }

  lemma IncreasingPrefix(ops: seq<Op>)
    requires ops != [] && Increasing(Fetched(ops))
    ensures Increasing(Fetched(ops[..|ops| - 1]))
    ensures !ops[|ops| - 1].Skip? ==> forall s <- Fetched(ops[..|ops| - 1]) :: s.at < ops[|ops| - 1].snap.at
  {
    hide Increasing;
    if !ops[|ops| - 1].Skip? {
      IncreasingInit(Fetched(ops[..|ops| - 1]), ops[|ops| - 1].snap);
    }
  }

  lemma {:induction false} StoreIsIncreasing(ops: seq<Op>)
    requires Increasing(Fetched(ops))
    ensures Increasing(Store(ops))
  {
    hide Save, Apply;
    if ops != [] {
      var before, op := ops[..|ops| - 1], ops[|ops| - 1];
      IncreasingPrefix(ops);
      StoreIsIncreasing(before);
      if op.Skip? {
        SkipChangesNothing(Store(before));
      } else {
        StoreIsFetched(before);
        SaveIsIncreasing(Store(before), op.snap);
        var k := ApplyDrops(Store(before), op);
      }
    }
  }

  lemma SaveIsIncreasing(st: seq<Snap>, s: Snap)
    requires Increasing(st) && forall y <- st :: y.at < s.at
    ensures Increasing(Save(st, s)) && forall y <- Save(st, s) :: y.at <= s.at
  {
  }

  lemma {:induction false} LookupInSuffix(st: seq<Snap>, k: nat, t: int)
    requires Increasing(st) && k < |st| && st[k].at <= t
    ensures Lookup(st[k..], t) == Lookup(st, t)
  {
    var n := |st| - 1;
    if st[n].at > t {
      assert st[k..][..n - k] == st[..n][k..];
      LookupInSuffix(st[..n], k, t);
    }
  }

  lemma {:induction false} LookupOfNewest(st: seq<Snap>, t: int)
    requires Increasing(st) && st != [] && st[|st| - 1].at <= t
    ensures Lookup(st, t) == Some(st[|st| - 1])
  {
  }

  lemma {:induction false} LookupAfterSave(st: seq<Snap>, s: Snap, t: int)
    requires t < s.at
    ensures Lookup(Save(st, s), t) == Lookup(st, t)
  {
    assert (st + [s])[..|st|] == st;
  }

  lemma SavedIsIncreasing(ops: seq<Op>, s: Snap)
    requires Increasing(Fetched(ops)) && forall y <- Fetched(ops) :: y.at < s.at
    ensures Increasing(Save(Store(ops), s))
    ensures forall y <- Save(Store(ops), s) :: y.at <= s.at
  {
    StoreIsIncreasing(ops);
    StoreIsFetched(ops);
    SaveIsIncreasing(Store(ops), s);
  }

  lemma SaveEnds(st: seq<Snap>, s: Snap)
    ensures var saved := Save(st, s); saved != [] && saved[|saved| - 1].sha == s.sha
    ensures st != [] ==> Save(st, s)[0] == st[0]
    ensures st == [] ==> Save(st, s) == [s]
  {
  }

  /** Whether or not it was stored, every fetched state that is not older than the oldest
      stored snapshot is the one the store gives for its time. */
  lemma {:induction false} EveryStateIsRecoverable(ops: seq<Op>, x: Snap)
    requires Increasing(Fetched(ops)) && x in Fetched(ops)
    requires Store(ops) != [] && Store(ops)[0].at <= x.at
    ensures Lookup(Store(ops), x.at).Some? && Lookup(Store(ops), x.at).value.sha == x.sha
    decreases |ops|
  {
    hide Save, Apply, Lookup;
    var before, op := ops[..|ops| - 1], ops[|ops| - 1];
    IncreasingPrefix(ops);
    if op.Skip? {
      SkipChangesNothing(Store(before));
      EveryStateIsRecoverable(before, x);
    } else {
      var s := op.snap;
      var st := Save(Store(before), s);
      SavedIsIncreasing(before, s);
      SaveEnds(Store(before), s);
      var k := ApplyDrops(Store(before), op);
      LookupInSuffix(st, k, x.at);
      if x == s {
        LookupOfNewest(st, x.at);
      } else {
        LookupAfterSave(Store(before), s, x.at);
        EveryStateIsRecoverable(before, x);
      }
    }
  }

  lemma SkipChangesNothing(st: seq<Snap>)
    ensures Apply(st, Skip) == st
  {
  }
}
