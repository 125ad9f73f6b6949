/** File naming, retention, and the listing of a directory. */
module StorageLaws {
  import opened Wrappers
  import opened Sequences
  import opened Clock
  import opened Storage
  import Normalize

  // ----- Names -----

  /** The name a save writes is read back as its stem and form, and listing, deletion and
      mirroring all look for the sidecar that the save wrote. */
  lemma NamesAgree(stem: string, compress: bool)
    ensures ConfName(stem, compress) == stem + (if compress then ".conf.gz" else ".conf")
    ensures MetaName(stem) == stem + ".json"
    ensures Classify(ConfName(stem, compress)) == Some((stem, compress))
    ensures SidecarPathFor(ConfName(stem, compress)) == MetaName(stem)
    ensures SidecarFor(ConfName(stem, compress)) == Some(MetaName(stem))
  {
    var n := ConfName(stem, compress);
    if !compress {
      forall t: string ensures n != t + COMPRESSED {
        var u := t + COMPRESSED;
        assert u[|u| - 1] == 'z' && n[|n| - 1] == 'f';
      }
    }
  }

  lemma ClassifiedName(name: string)
    requires IsBackup(name)
    ensures var (stem, z) := Classify(name).value; name == ConfName(stem, z)
    ensures SidecarFor(name) == Some(SidecarPathFor(name))
  {
  }

  lemma BackupNamesExactly(name: string)
    ensures IsBackup(name) <==> exists stem: string :: name == stem + ".conf" || name == stem + ".conf.gz"
  {
    assert PLAIN == ".conf" && COMPRESSED == ".conf.gz";
  }

  /** What a file is listed as: an entry exactly if its name holds a time and its sidecar,
      if there is one, can be read; under the sidecar's hash, or else the hash of its bytes
      or, for a plain one, of their normal form. */
  lemma EntryExactly(c: Codecs, device: string, files: Files, stem: string, compressed: bool)
    requires stem + (if compressed then ".conf.gz" else ".conf") in files
    ensures var name, sidecar := stem + (if compressed then ".conf.gz" else ".conf"), stem + ".json";
            && name in BackupNames(files)
            && (EntryOf(c, device, files, name).Ok? <==>
                ParseStem(stem).Some? && (sidecar in files ==> c.decodeMeta(files[sidecar]).Some?))
            && (EntryOf(c, device, files, name).Ok? ==>
                  var e := EntryOf(c, device, files, name).value;
                  && e.device == device && e.path == name && e.size == |files[name]|
                  && e.createdAt.Valid() && FormatStem(e.createdAt) == stem
                  && e.sha256 == (if sidecar in files then c.decodeMeta(files[sidecar]).value.sha256
                                  else if compressed then c.sha256(files[name])
                                  else c.sha256(Normalize.Normalized(files[name]))))
  {
    NamesAgree(stem, compressed);
    if ParseStem(stem).Some? { StemCanonical(stem); }
    hide Classify, ParseStem, FormatStem, Normalize.Normalized;
  }

  // ----- What retention removes -----

  function RecentCount(es: seq<Entry>, cutoff: int): (n: nat)
    ensures n <= |es|
  {
    if es == [] then 0 else (if es[0].Time() >= cutoff then 1 else 0) + RecentCount(es[1..], cutoff)
  }

  function Min(a: int, b: int): int {
    if a < b then a else b
  }

  function Max(a: int, b: int): int {
    if a < b then b else a
  }

  /** How many backups survive. */
  function KeepCount(es: seq<Entry>, days: nat, minCopies: nat, now: int): (k: nat)
    ensures k <= |es|
  {
    Max(Min(minCopies, |es|), RecentCount(es, Cutoff(days, now)))
  }

  lemma {:induction false} RecentAfterInsert(e: Entry, es: seq<Entry>, newestFirst: bool, cutoff: int)
    ensures RecentCount(Insert(e, es, newestFirst), cutoff) ==
            RecentCount(es, cutoff) + if e.Time() >= cutoff then 1 else 0
  {
    if es != [] && !InOrder(e, es[0], newestFirst) {
      RecentAfterInsert(e, es[1..], newestFirst, cutoff);
      var r := Insert(e, es, newestFirst);
      assert r[1..] == Insert(e, es[1..], newestFirst);
    } else {
      assert ([e] + es)[1..] == es;
    }
  }

  lemma {:induction false} RecentAfterSort(es: seq<Entry>, newestFirst: bool, cutoff: int)
    ensures RecentCount(SortByTime(es, newestFirst), cutoff) == RecentCount(es, cutoff)
  {
    if es != [] {
      RecentAfterSort(es[1..], newestFirst, cutoff);
      RecentAfterInsert(es[0], SortByTime(es[1..], newestFirst), newestFirst, cutoff);
    }
  }

  lemma {:induction false} NoneRecent(es: seq<Entry>, cutoff: int)
    requires forall e <- es :: e.Time() < cutoff
    ensures RecentCount(es, cutoff) == 0
  {
    if es != [] { NoneRecent(es[1..], cutoff); }
  }

  lemma SortedTail(s: seq<Entry>, newestFirst: bool)
    requires s != [] && Sorted(s, newestFirst)
    ensures Sorted(s[1..], newestFirst)
    ensures forall e <- s[1..] :: InOrder(s[0], e, newestFirst)
  {
    hide Entry.Time, InOrder;
    var rest := s[1..];
    assert forall j :: 0 <= j < |rest| ==> rest[j] == s[j + 1];
  }

  lemma FirstVictim(s: seq<Entry>, minCopies: nat, cutoff: int, index: nat)
    requires s != [] && index < U32
    ensures VictimsFrom(s, minCopies, cutoff, index) ==
      (if index >= minCopies && s[0].Time() < cutoff then [s[0]] else []) +
        VictimsFrom(s[1..], minCopies, cutoff, index + 1)
    ensures RecentCount(s, cutoff) == (if s[0].Time() < cutoff then 0 else 1) + RecentCount(s[1..], cutoff)
  {
  }

  lemma NoneRecentAfterOld(s: seq<Entry>, cutoff: int)
    requires s != [] && Sorted(s, true) && s[0].Time() < cutoff
    ensures RecentCount(s, cutoff) == 0 == RecentCount(s[1..], cutoff)
  {
    hide Entry.Time, Sorted;
    SortedTail(s, true);
    assert forall e <- s :: e == s[0] || e in s[1..];
    NoneRecent(s, cutoff);
    NoneRecent(s[1..], cutoff);
  }

  lemma DropOneMore(s: seq<Entry>, k: nat)
    requires s != [] && k < |s|
    ensures s[1..][k..] == s[k + 1..]
    ensures [s[0]] + s[1..][0..] == s[0..]
  {
  }

  lemma {:induction false} VictimsAreSuffix(s: seq<Entry>, minCopies: nat, cutoff: int, index: nat)
    requires Sorted(s, true) && index + |s| <= U32
    ensures var k := Max(Min(Max(minCopies - index, 0), |s|), RecentCount(s, cutoff));
            0 <= k <= |s| && VictimsFrom(s, minCopies, cutoff, index) == s[k..]
  {
    hide Entry.Time, Sorted, VictimsFrom, RecentCount, InOrder;
    if s == [] {
      NoVictims(minCopies, cutoff, index);
    } else {
      var rest := s[1..];
      SortedTail(s, true);
      VictimsAreSuffix(rest, minCopies, cutoff, index + 1);
      FirstVictim(s, minCopies, cutoff, index);
      if s[0].Time() < cutoff {
        NoneRecentAfterOld(s, cutoff);
      }
      DropOneMore(s, Max(Min(Max(minCopies - index - 1, 0), |rest|), RecentCount(rest, cutoff)));
    }
  }

  lemma NoVictims(minCopies: nat, cutoff: int, index: nat)
    ensures VictimsFrom([], minCopies, cutoff, index) == [] && RecentCount([], cutoff) == 0
  {
  }

  /** For any listing order, ties included: retention removes the tail of the newest-first
      order, everything in it is older than the cutoff, and exactly
      max(min(minCopies, n), recent) backups survive. */
  lemma RetentionExact(es: seq<Entry>, days: nat, minCopies: nat, now: int)
    requires |es| <= U32
    ensures var s, k := SortByTime(es, true), KeepCount(es, days, minCopies, now);
            var vs := Victims(es, days, minCopies, now);
            && |s| == |es| && vs == s[k..] && |es| - |vs| == k
            && multiset(s[..k]) + multiset(vs) == multiset(es)
            && forall v <- vs :: v.Time() < Cutoff(days, now)
  {
    hide Entry.Time, SortByTime, VictimsFrom, RecentCount;
    var s, k := SortByTime(es, true), KeepCount(es, days, minCopies, now);
    var cutoff := Cutoff(days, now);
    SortIsSorted(es, true);
    RecentAfterSort(es, true, cutoff);
    assert |s| == |multiset(s)| == |multiset(es)| == |es|;
    VictimsAreSuffix(s, minCopies, cutoff, 0);
    assert s == s[..k] + s[k..];
    OldAfterRecent(s, cutoff);
  }

  lemma {:induction false} OldAfterRecent(s: seq<Entry>, cutoff: int)
    requires Sorted(s, true)
    ensures forall j :: RecentCount(s, cutoff) <= j < |s| ==> s[j].Time() < cutoff
  {
    hide Entry.Time;
    if s != [] {
      var rest := s[1..];
      OldAfterRecent(rest, cutoff);
      assert forall j :: 0 <= j < |rest| ==> InOrder(s[0], s[j + 1], true) && rest[j] == s[j + 1];
      if s[0].Time() < cutoff {
        NoneRecent(s, cutoff);
      }
    }
  }

  lemma {:induction false} VictimsOfConcat(a: seq<Entry>, b: seq<Entry>, minCopies: nat, cutoff: int, index: nat)
    ensures VictimsFrom(a + b, minCopies, cutoff, index)
         == VictimsFrom(a, minCopies, cutoff, index) + VictimsFrom(b, minCopies, cutoff, index + |a|)
    decreases |a|
  {
    if a == [] {
      assert a + b == b;
    } else {
      DropConcat(a, b, 1);
      VictimsOfConcat(a[1..], b, minCopies, cutoff, index + 1);
      assert (a + b)[0] == a[0];
    }
  }

  lemma {:induction false} AtMostAll(es: seq<Entry>, minCopies: nat, cutoff: int, index: nat)
    ensures |VictimsFrom(es, minCopies, cutoff, index)| <= |es|
  {
    if es != [] { AtMostAll(es[1..], minCopies, cutoff, index + 1); }
  }

  lemma WrappedVictims(s: seq<Entry>, minCopies: nat, cutoff: int)
    requires |s| > U32 && 1 <= minCopies < U32
    requires Sorted(s, true) && forall e <- s :: e.Time() < cutoff
    ensures |s| - |VictimsFrom(s, minCopies, cutoff, 0)| > minCopies
  {
    hide Entry.Time, Sorted, VictimsFrom, RecentCount;
    var a, b := s[..U32], s[U32..];
    assert s == a + b;
    VictimsOfConcat(a, b, minCopies, cutoff, 0);
    SortedPrefix(s, U32);
    NoneRecent(a, cutoff);
    VictimsAreSuffix(a, minCopies, cutoff, 0);
    WrappedFirst(b, minCopies, cutoff);
  }

  lemma SortedPrefix(s: seq<Entry>, n: nat)
    requires n <= |s| && Sorted(s, true)
    ensures Sorted(s[..n], true)
  {
    hide Entry.Time, InOrder;
  }

  lemma WrappedFirst(b: seq<Entry>, minCopies: nat, cutoff: int)
    requires b != [] && minCopies >= 1
    ensures |VictimsFrom(b, minCopies, cutoff, U32)| < |b|
  {
    AtMostAll(b[1..], minCopies, cutoff, U32 + 1);
  }

  /** The 32-bit position starts again at 0 after 2^32 backups: when all are older than the
      cutoff, exactly the `minCopies` newest survive if and only if there are no more than
      that; past it, older ones are kept as well. */
  lemma PositionsWrap(es: seq<Entry>, days: nat, minCopies: nat, now: int)
    requires 1 <= minCopies < U32
    requires forall e <- es :: e.Time() < Cutoff(days, now)
    ensures |es| - |Victims(es, days, minCopies, now)| == Min(minCopies, |es|) <==> |es| <= 4_294_967_296
    ensures |es| > 4_294_967_296 ==> |es| - |Victims(es, days, minCopies, now)| > minCopies
  {
    hide Entry.Time, Sorted, VictimsFrom, SortByTime, RecentCount;
    NoneRecent(es, Cutoff(days, now));
    if |es| <= U32 {
      RetentionExact(es, days, minCopies, now);
    } else {
      var s, cutoff := SortByTime(es, true), Cutoff(days, now);
      SortIsSorted(es, true);
      assert |s| == |multiset(s)| == |multiset(es)| == |es|;
      forall e <- s ensures e.Time() < cutoff {
        assert e in multiset(s);
      }
      WrappedVictims(s, minCopies, cutoff);
    }
  }

  // ----- Listings of a directory with distinct stems -----

  ghost predicate Ascending(es: seq<Entry>) {
    forall i, j :: 0 <= i < j < |es| ==> es[i].Time() < es[j].Time()
  }

  ghost predicate DistinctTimes(es: seq<Entry>) {
    forall i, j :: 0 <= i < j < |es| ==> es[i].Time() != es[j].Time()
  }

  ghost predicate DistinctStems(files: Files) {
    forall m <- BackupNames(files), n <- BackupNames(files) ::
      Classify(m).value.0 == Classify(n).value.0 ==> m == n
  }

  lemma HeadsAgree(a: seq<Entry>, b: seq<Entry>, newestFirst: bool)
    requires a != [] && Sorted(a, newestFirst) && Sorted(b, newestFirst) && DistinctTimes(a)
    requires multiset(a) == multiset(b)
    ensures b != [] && a[0] == b[0]
  {
    assert a[0] in multiset(b);
    var j :| 0 <= j < |b| && b[j] == a[0];
    assert b[0] in multiset(a);
    var i :| 0 <= i < |a| && a[i] == b[0];
    TimesAgree(a, i, b, j, newestFirst);
  }

  lemma TimesAgree(a: seq<Entry>, i: nat, b: seq<Entry>, j: nat, newestFirst: bool)
    requires i < |a| && j < |b| && a[i] == b[0] && b[j] == a[0]
    requires Sorted(a, newestFirst) && Sorted(b, newestFirst) && DistinctTimes(a)
    ensures i == 0
  {
    hide Entry.Time;
  }

  lemma HeadAndTail(a: seq<Entry>)
    requires a != []
    ensures a == [a[0]] + a[1..]
    ensures multiset(a[1..]) == multiset(a) - multiset{a[0]}
  {
    hide Entry.Time;
    assert a == [a[0]] + a[1..];
  }

  lemma DistinctTail(a: seq<Entry>)
    requires a != [] && DistinctTimes(a)
    ensures DistinctTimes(a[1..])
  {
    hide Entry.Time;
    assert forall j :: 0 <= j < |a| - 1 ==> a[1..][j] == a[j + 1];
  }

  lemma {:induction false} SortedIsUnique(a: seq<Entry>, b: seq<Entry>, newestFirst: bool)
    requires Sorted(a, newestFirst) && Sorted(b, newestFirst) && DistinctTimes(a)
    requires multiset(a) == multiset(b)
    ensures a == b
    decreases |a|
  {
    hide Entry.Time, Sorted, DistinctTimes, InOrder;
    if a == [] {
      assert |multiset(b)| == |b|;
    } else {
      HeadsAgree(a, b, newestFirst);
      SortedTail(a, newestFirst);
      SortedTail(b, newestFirst);
      HeadAndTail(a);
      HeadAndTail(b);
      DistinctTail(a);
      SortedIsUnique(a[1..], b[1..], newestFirst);
    }
  }

  lemma EntryTime(c: Codecs, device: string, files: Files, name: string)
    requires name in BackupNames(files) && EntryOf(c, device, files, name).Ok?
    ensures var stem := Classify(name).value.0;
            ParseStem(stem).Some? && ParseStem(stem).value.Instant() == EntryOf(c, device, files, name).value.Time()
  {
  }

  /** With distinct stems the directory has one listing, strictly ascending in time. */
  lemma ListingIsAscending(c: Codecs, device: string, files: Files, es: seq<Entry>)
    requires DistinctStems(files) && IsListing(c, device, files, es)
    ensures Ascending(es)
  {
    hide Entry.Time;
    hide EntryOf, Classify;
    ListingIsDistinct(c, device, files, es);
    forall i, j | 0 <= i < j < |es| ensures es[i].Time() < es[j].Time() {
      var m, n := es[i].path, es[j].path;
      assert es[i] in es && es[j] in es;
      EntryTime(c, device, files, m);
      EntryTime(c, device, files, n);
      assert InOrder(es[i], es[j], false);
      if es[i].Time() == es[j].Time() {
        StemInjective(Classify(m).value.0, Classify(n).value.0);
      }
    }
  }

  lemma ListingIsUnique(c: Codecs, device: string, files: Files, es: seq<Entry>, es': seq<Entry>)
    requires DistinctStems(files) && IsListing(c, device, files, es) && IsListing(c, device, files, es')
    ensures es == es'
  {
    ListingIsAscending(c, device, files, es);
    SortedIsUnique(es, es', false);
  }

  function Reverse<T>(s: seq<T>): (r: seq<T>)
    ensures |r| == |s| && forall i :: 0 <= i < |s| ==> r[i] == s[|s| - 1 - i]
    ensures multiset(r) == multiset(s)
  {
    if s == [] then []
    else
      assert s == [s[0]] + s[1..];
      Reverse(s[1..]) + [s[0]]
  }

  /** On an ascending listing retention removes the oldest backups. */
  lemma VictimsOfAscending(es: seq<Entry>, days: nat, minCopies: nat, now: int)
    requires Ascending(es) && |es| <= U32
    ensures var n := |es| - KeepCount(es, days, minCopies, now);
            Victims(es, days, minCopies, now) == Reverse(es[..n])
  {
    hide Entry.Time, SortByTime, VictimsFrom, RecentCount, Reverse, Sorted, DistinctTimes;
    var k := KeepCount(es, days, minCopies, now);
    var n := |es| - k;
    var s, r := SortByTime(es, true), Reverse(es);
    SortIsSorted(es, true);
    ReverseSorted(es);
    SortedIsUnique(r, s, true);
    RetentionExact(es, days, minCopies, now);
    ReverseDrop(es, k);
  }

  lemma ReverseSorted(es: seq<Entry>)
    requires Ascending(es)
    ensures Sorted(Reverse(es), true) && DistinctTimes(Reverse(es))
  {
    hide Entry.Time, Reverse;
  }

  lemma ReverseDrop<T>(s: seq<T>, k: nat)
    requires k <= |s|
    ensures Reverse(s)[k..] == Reverse(s[..|s| - k])
  {
    hide Reverse;
  }

  // ----- Stability -----

  lemma {:induction false} RecentIsMonotone(es: seq<Entry>, cutoff: int, cutoff': int)
    requires cutoff <= cutoff'
    ensures RecentCount(es, cutoff') <= RecentCount(es, cutoff)
  {
    if es != [] { RecentIsMonotone(es[1..], cutoff, cutoff'); }
  }

  lemma {:induction false} RecentOfSuffix(es: seq<Entry>, n: nat, cutoff: int)
    requires Ascending(es) && n <= |es| - RecentCount(es, cutoff)
    ensures RecentCount(es[n..], cutoff) == RecentCount(es, cutoff)
  {
    hide Entry.Time;
    if n > 0 {
      var rest := es[1..];
      assert es[n..] == rest[n - 1..];
      if es[0].Time() >= cutoff {
        AllRecent(es, cutoff);
      }
      RecentOfSuffix(rest, n - 1, cutoff);
    } else {
      assert es[0..] == es;
    }
  }

  lemma {:induction false} AllRecent(es: seq<Entry>, cutoff: int)
    requires es != [] && Ascending(es) && es[0].Time() >= cutoff
    ensures RecentCount(es, cutoff) == |es|
  {
    hide Entry.Time;
    if |es| > 1 {
      assert es[0].Time() < es[1].Time();
      AllRecent(es[1..], cutoff);
    }
  }

  /** What retention leaves is left alone at the same instant. */
  lemma RetentionIsStable(es: seq<Entry>, days: nat, minCopies: nat, now: int)
    requires Ascending(es) && |es| <= U32
    ensures var left := es[|es| - KeepCount(es, days, minCopies, now)..];
            && Victims(left, days, minCopies, now) == []
            && (minCopies >= 1 ==> NewestHash(left) == NewestHash(es))
  {
    hide Entry.Time, Victims, RecentCount;
    var k := KeepCount(es, days, minCopies, now);
    var left := es[|es| - k..];
    RecentOfSuffix(es, |es| - k, Cutoff(days, now));
    assert KeepCount(left, days, minCopies, now) == |left|;
    VictimsOfAscending(left, days, minCopies, now);
    assert left[..0] == [];
  }

  /** What is planned for deletion is deleted later, whatever the two listings' order. */
  lemma PlannedIsDeleted(c: Codecs, device: string, files: Files, planned: seq<Entry>, applied: seq<Entry>,
                         days: nat, minCopies: nat, now: int, later: int)
    requires DistinctStems(files) && IsListing(c, device, files, planned) && IsListing(c, device, files, applied)
    requires |planned| <= U32 && now <= later
    ensures forall v <- Victims(planned, days, minCopies, now) :: v in Victims(applied, days, minCopies, later)
  {
    hide Entry.Time;
    var es := planned;
    ListingIsUnique(c, device, files, planned, applied);
    ListingIsAscending(c, device, files, es);
    VictimsOfAscending(es, days, minCopies, now);
    VictimsOfAscending(es, days, minCopies, later);
    RecentIsMonotone(es, Cutoff(days, now), Cutoff(days, later));
    var m := |es| - KeepCount(es, days, minCopies, now);
    var n := |es| - KeepCount(es, days, minCopies, later);
    PrefixReversed(es, m, n);
  }

  lemma PrefixReversed<T>(es: seq<T>, m: nat, n: nat)
    requires m <= n <= |es|
    ensures forall v <- Reverse(es[..m]) :: v in Reverse(es[..n])
  {
    forall v <- Reverse(es[..m]) ensures v in Reverse(es[..n]) {
      var i :| 0 <= i < m && Reverse(es[..m])[i] == v;
      assert Reverse(es[..n])[n - 1 - (m - 1 - i)] == es[..n][m - 1 - i] == v;
    }
  }

  // ----- Deleting -----

  lemma {:induction false} DeleteConcat(files: Files, a: seq<Entry>, b: seq<Entry>)
    requires DeleteAll(files, a).1
    ensures DeleteAll(files, a + b) == DeleteAll(DeleteAll(files, a).0, b)
    decreases |a|
  {
    hide SidecarPathFor;
    if a == [] {
      assert a + b == b;
    } else {
      DropConcat(a, b, 1);
      DeleteConcat(files - {a[0].path} - {SidecarPathFor(a[0].path)}, a[1..], b);
    }
  }

  /** Deleting stops at the first file that is missing; what came before it is gone. */
  lemma DeletesUpToMissing(files: Files, gone: seq<Entry>, missing: Entry, rest: seq<Entry>)
    requires DistinctPaths(gone) && forall v <- gone :: v.path in BackupNames(files)
    requires missing.path !in files
    ensures DeleteAll(files, gone + ([missing] + rest)) == (Without(files, gone), false)
  {
    hide SidecarPathFor;
    DeletesAll(files, gone);
    DeleteConcat(files, gone, [missing] + rest);
  }
}
