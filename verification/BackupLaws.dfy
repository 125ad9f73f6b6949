/** The directory after any history of runs, and what can be read back from it. */
module BackupLaws {
  import opened Wrappers
  import opened Utf8
  import opened Text
  import opened Clock
  import opened Storage
  import opened StorageLaws
  import opened Backup
  import opened History
  import Normalize

  // ----- What every reachable directory satisfies -----

  /** The configuration a backup file holds. */
  function Content(c: Codecs, files: Files, name: string): Option<Bytes>
    requires name in files && IsBackup(name)
  {
    if Classify(name).value.1 then c.gunzip(files[name]) else Some(files[name])
  }

  /** The listed hash is that of the configuration in the file. */
  ghost predicate Truthful(c: Codecs, files: Files, e: Entry) {
    && e.path in files && IsBackup(e.path)
    && Content(c, files, e.path).Some?
    && e.sha256 == c.DedupHash(Content(c, files, e.path).value)
  }

  ghost predicate NoOrphans(files: Files) {
    forall name <- files :: StripSuffix(name, SIDECAR).Some? ==>
      exists b <- BackupNames(files) :: SidecarPathFor(b) == name
  }

  ghost predicate Consistent(c: Codecs, device: string, files: Files, es: seq<Entry>) {
    && IsListing(c, device, files, es)
    && DistinctStems(files)
    && NoOrphans(files)
    && forall e <- es :: Truthful(c, files, e)
  }

  lemma EmptyIsConsistent(c: Codecs, device: string)
    ensures Consistent(c, device, map[], [])
  {
    assert BackupNames(map[]) == {};
    NoEntries(c, device, map[]);
  }

  // ----- Frames -----

  /** An entry depends on its file and its sidecar only. */
  lemma EntryFrame(c: Codecs, device: string, files: Files, files': Files, name: string)
    requires name in BackupNames(files) && name in files' && files'[name] == files[name]
    requires var s := SidecarPathFor(name); (s in files <==> s in files') && (s in files ==> files'[s] == files[s])
    ensures EntryOf(c, device, files', name) == EntryOf(c, device, files, name)
    ensures Content(c, files', name) == Content(c, files, name)
  {
  }

  ghost predicate SameOn(files: Files, files': Files, names: set<string>) {
    forall n <- names :: n in files && n in files' && IsBackup(n) && files'[n] == files[n]
      && (SidecarPathFor(n) in files <==> SidecarPathFor(n) in files')
      && (SidecarPathFor(n) in files ==> files'[SidecarPathFor(n)] == files[SidecarPathFor(n)])
  }

  lemma EntriesFrame(c: Codecs, device: string, files: Files, files': Files, names: set<string>)
    requires SameOn(files, files', names)
    ensures names <= BackupNames(files) && names <= BackupNames(files')
    ensures EntriesOf(c, device, files', names) == EntriesOf(c, device, files, names)
    ensures forall n <- names :: EntryOf(c, device, files', n) == EntryOf(c, device, files, n)
    ensures forall n <- names :: Content(c, files', n) == Content(c, files, n)
  {
    forall n <- names
      ensures n in BackupNames(files) && EntryOf(c, device, files', n) == EntryOf(c, device, files, n)
      ensures Content(c, files', n) == Content(c, files, n)
    {
      EntryFrame(c, device, files, files', n);
    }
    hide EntryOf, SidecarPathFor, IsBackup;
  }

  // ----- A new backup -----

  function Stem(name: string): string
    requires IsBackup(name)
  {
    Classify(name).value.0
  }

  lemma MetaNameInjective(s: string, t: string)
    requires MetaName(s) == MetaName(t)
    ensures s == t
  {
    assert MetaName(s)[..|s|] == s && MetaName(t)[..|t|] == t;
  }

  lemma SidecarOfStem(name: string)
    requires IsBackup(name)
    ensures SidecarPathFor(name) == MetaName(Stem(name)) && !IsBackup(SidecarPathFor(name))
    ensures StripSuffix(SidecarPathFor(name), SIDECAR).Some? && StripSuffix(name, SIDECAR).None?
    ensures SidecarPathFor(name) != MARKER && name != MARKER
  {
    BackupSidecar(name);
    var (stem, z) := Classify(name).value;
    ClassifiedName(name);
    forall t: string ensures name != t + SIDECAR {
      var u := t + SIDECAR;
      assert u[|u| - 1] == 'n' && (name[|name| - 1] == 'z' || name[|name| - 1] == 'f');
    }
  }

  /** The new file's stem is not in use. */
  lemma NewStem(c: Codecs, device: string, files: Files, es: seq<Entry>, t: DateTime)
    requires Consistent(c, device, files, es) && t.Valid()
    requires forall e <- es :: e.Time() < t.Truncated().Instant()
    ensures forall n <- BackupNames(files) :: Stem(n) != FormatStem(t)
    ensures MetaName(FormatStem(t)) !in files
  {
    hide EntryOf, Classify, DateTime.Instant, FormatStem, ParseStem;
    StemRoundTrip(t);
    ListingIsDistinct(c, device, files, es);
    forall n <- BackupNames(files) ensures Stem(n) != FormatStem(t) {
      var e := ListedEntry(c, device, files, es, n);
      EntryTime(c, device, files, n);
    }
    SidecarsElsewhere(files, FormatStem(t));
    assert StripSuffix(MetaName(FormatStem(t)), SIDECAR) == Some(FormatStem(t));
  }

  lemma ListedEntry(c: Codecs, device: string, files: Files, es: seq<Entry>, name: string) returns (e: Entry)
    requires IsListing(c, device, files, es) && name in BackupNames(files)
    ensures e in es && e.path == name && EntryOf(c, device, files, name) == Ok(e)
  {
    PathOfEntry(c, device, files);
    hide EntryOf, IsBackup;
    e := EntryOf(c, device, files, name).value;
    assert e in EntriesOf(c, device, files, BackupNames(files));
    assert e in multiset(es);
  }

  lemma FreshName(files: Files, t: DateTime, compress: bool)
    requires t.Valid()
    requires forall n <- BackupNames(files) :: Stem(n) != FormatStem(t)
    ensures var conf := ConfName(FormatStem(t), compress);
            && IsBackup(conf) && Stem(conf) == FormatStem(t) && conf !in files
            && SidecarPathFor(conf) == MetaName(FormatStem(t)) && conf != MetaName(FormatStem(t))
  {
    NamesAgree(FormatStem(t), compress);
    var conf := ConfName(FormatStem(t), compress);
    SidecarOfStem(conf);
    assert conf in files ==> conf in BackupNames(files);
  }

  /** The directory with the new file, with or without its sidecar. */
  function Added(c: Codecs, device: string, transport: string, files: Files, a: Artifact, compress: bool, sidecar: bool)
    : Files
    requires a.fetchedAt.Valid()
  {
    if sidecar then Written(c, device, transport, files, a, compress) else HalfWritten(c, files, a, compress)
  }

  function NewEntry(c: Codecs, device: string, a: Artifact, compress: bool): Entry
    requires a.fetchedAt.Valid()
  {
    Entry(device, ConfName(FormatStem(a.fetchedAt), compress), |Body(c, a.content, compress)|,
          a.fetchedAt.Truncated(), c.DedupHash(a.content))
  }

  lemma SidecarsElsewhere(files: Files, stem: string)
    requires forall n <- BackupNames(files) :: Stem(n) != stem
    ensures forall n <- BackupNames(files) ::
      !IsBackup(SidecarPathFor(n)) && SidecarPathFor(n) != MetaName(stem) && n != MetaName(stem)
  {
    SidecarIsNoBackup(stem);
    forall n <- BackupNames(files)
      ensures !IsBackup(SidecarPathFor(n)) && SidecarPathFor(n) != MetaName(stem) && n != MetaName(stem)
    {
      SidecarOfStem(n);
      if SidecarPathFor(n) == MetaName(stem) {
        MetaNameInjective(Stem(n), stem);
      }
    }
  }

  lemma AddedFrame(c: Codecs, device: string, transport: string, files: Files, a: Artifact, compress: bool,
                   sidecar: bool)
    requires a.fetchedAt.Valid()
    requires forall n <- BackupNames(files) :: Stem(n) != FormatStem(a.fetchedAt)
    ensures var files' := Added(c, device, transport, files, a, compress, sidecar);
            var conf := ConfName(FormatStem(a.fetchedAt), compress);
            SameOn(files, files', BackupNames(files)) && BackupNames(files') == BackupNames(files) + {conf}
  {
    var stem, names := FormatStem(a.fetchedAt), BackupNames(files);
    FreshName(files, a.fetchedAt, compress);
    SidecarsElsewhere(files, stem);
    SidecarIsNoBackup(stem);
    hide IsBackup, SidecarPathFor, FormatStem, ConfName, MetaName;
    var half := HalfWritten(c, files, a, compress);
    WriteFrame(files, half, names, ConfName(stem, compress));
    if sidecar {
      var files' := Added(c, device, transport, files, a, compress, sidecar);
      WriteFrame(half, files', names, MetaName(stem));
      SameOnTransitive(files, half, files', names);
    }
  }

  /** A write to a file that is neither one of the backups nor the sidecar of one. */
  lemma WriteFrame(files: Files, files': Files, names: set<string>, name: string)
    requires name in files' && files' == files[name := files'[name]]
    requires names <= BackupNames(files)
    requires forall n <- names :: n != name && SidecarPathFor(n) != name
    ensures SameOn(files, files', names)
    ensures BackupNames(files') == BackupNames(files) + if IsBackup(name) then {name} else {}
  {
    hide IsBackup, SidecarPathFor;
  }

  lemma SameOnTransitive(a: Files, b: Files, d: Files, names: set<string>)
    requires SameOn(a, b, names) && SameOn(b, d, names)
    ensures SameOn(a, d, names)
  {
    hide IsBackup, SidecarPathFor;
  }

  lemma AddedEntry(c: Codecs, device: string, transport: string, files: Files, a: Artifact, compress: bool,
                   sidecar: bool)
    requires c.Lawful() && a.fetchedAt.Valid() && (sidecar || !compress)
    requires forall n <- BackupNames(files) :: Stem(n) != FormatStem(a.fetchedAt)
    requires MetaName(FormatStem(a.fetchedAt)) !in files
    ensures var files' := Added(c, device, transport, files, a, compress, sidecar);
            var conf := ConfName(FormatStem(a.fetchedAt), compress);
            && conf in files' && IsBackup(conf)
            && EntryOf(c, device, files', conf) == Ok(NewEntry(c, device, a, compress))
            && Content(c, files', conf) == Some(a.content)
  {
    hide FormatStem, ParseStem, ConfName, MetaName;
    StemRoundTrip(a.fetchedAt);
    FreshName(files, a.fetchedAt, compress);
    NamesAgree(FormatStem(a.fetchedAt), compress);
  }

  /** Saving a newer configuration adds its entry at the end of the listing; so does a
      plain save cut off before the sidecar. */
  lemma AddedIsConsistent(c: Codecs, device: string, transport: string, files: Files, es: seq<Entry>, a: Artifact,
                          compress: bool, sidecar: bool)
    requires c.Lawful() && a.fetchedAt.Valid() && (sidecar || !compress)
    requires Consistent(c, device, files, es)
    requires forall e <- es :: e.Time() < a.fetchedAt.Truncated().Instant()
    ensures Consistent(c, device, Added(c, device, transport, files, a, compress, sidecar),
                       es + [NewEntry(c, device, a, compress)])
  {
    var files' := Added(c, device, transport, files, a, compress, sidecar);
    NewStem(c, device, files, es, a.fetchedAt);
    AddedStems(c, device, transport, files, a, compress, sidecar);
    AddedSidecars(c, device, transport, files, a, compress, sidecar);
    AddedListing(c, device, transport, files, es, a, compress, sidecar);
    AddedTruthful(c, device, transport, files, es, a, compress, sidecar);
    hide IsListing, DistinctStems, NoOrphans, Truthful, Added, NewEntry, IsBackup, Classify, FormatStem, Entry.Time;
  }

  lemma AddedListing(c: Codecs, device: string, transport: string, files: Files, es: seq<Entry>, a: Artifact,
                     compress: bool, sidecar: bool)
    requires c.Lawful() && a.fetchedAt.Valid() && (sidecar || !compress)
    requires IsListing(c, device, files, es)
    requires forall e <- es :: e.Time() < a.fetchedAt.Truncated().Instant()
    requires forall n <- BackupNames(files) :: Stem(n) != FormatStem(a.fetchedAt)
    requires MetaName(FormatStem(a.fetchedAt)) !in files
    ensures IsListing(c, device, Added(c, device, transport, files, a, compress, sidecar),
                      es + [NewEntry(c, device, a, compress)])
  {
    var files', e := Added(c, device, transport, files, a, compress, sidecar), NewEntry(c, device, a, compress);
    var names, conf := BackupNames(files), ConfName(FormatStem(a.fetchedAt), compress);
    FreshName(files, a.fetchedAt, compress);
    AddedFrame(c, device, transport, files, a, compress, sidecar);
    AddedEntry(c, device, transport, files, a, compress, sidecar);
    EntriesFrame(c, device, files, files', names);
    OneMoreEntry(c, device, files', names, conf);
    AppendNewest(es, e);
    hide EntryOf, IsBackup, FormatStem, ConfName, MetaName, Entry.Time, Added, Sorted, EntriesOf, SameOn, Classify;
    hide Content;
    assert Readable(c, device, files');
  }

  lemma AddedTruthful(c: Codecs, device: string, transport: string, files: Files, es: seq<Entry>, a: Artifact,
                      compress: bool, sidecar: bool)
    requires c.Lawful() && a.fetchedAt.Valid() && (sidecar || !compress)
    requires Consistent(c, device, files, es)
    requires forall n <- BackupNames(files) :: Stem(n) != FormatStem(a.fetchedAt)
    requires MetaName(FormatStem(a.fetchedAt)) !in files
    ensures forall e <- es + [NewEntry(c, device, a, compress)] ::
      Truthful(c, Added(c, device, transport, files, a, compress, sidecar), e)
  {
    var files' := Added(c, device, transport, files, a, compress, sidecar);
    AddedFrame(c, device, transport, files, a, compress, sidecar);
    AddedEntry(c, device, transport, files, a, compress, sidecar);
    ListingIsDistinct(c, device, files, es);
    hide EntryOf, IsBackup, FormatStem, ConfName, MetaName, Entry.Time, Added, NewEntry, SameOn, Classify, Content;
    hide Truthful;
    hide IsListing, DistinctStems, NoOrphans;
    TruthfulFrame(c, files, files', es, BackupNames(files));
    NewEntryIsTruthful(c, device, files', a, compress);
  }

  lemma NewEntryIsTruthful(c: Codecs, device: string, files': Files, a: Artifact, compress: bool)
    requires a.fetchedAt.Valid()
    requires var conf := ConfName(FormatStem(a.fetchedAt), compress);
             conf in files' && IsBackup(conf) && Content(c, files', conf) == Some(a.content)
    ensures Truthful(c, files', NewEntry(c, device, a, compress))
  {
    hide FormatStem, ConfName, IsBackup, Content;
  }

  lemma AppendNewest(es: seq<Entry>, e: Entry)
    requires Sorted(es, false) && forall x <- es :: x.Time() < e.Time()
    ensures Sorted(es + [e], false)
  {
    hide Entry.Time;
  }

  lemma AddedStems(c: Codecs, device: string, transport: string, files: Files, a: Artifact, compress: bool,
                   sidecar: bool)
    requires a.fetchedAt.Valid() && DistinctStems(files)
    requires forall n <- BackupNames(files) :: Stem(n) != FormatStem(a.fetchedAt)
    ensures DistinctStems(Added(c, device, transport, files, a, compress, sidecar))
  {
    AddedFrame(c, device, transport, files, a, compress, sidecar);
    FreshName(files, a.fetchedAt, compress);
    hide Classify, FormatStem, ConfName, Added;
  }

  lemma AddedSidecars(c: Codecs, device: string, transport: string, files: Files, a: Artifact, compress: bool,
                      sidecar: bool)
    requires a.fetchedAt.Valid() && NoOrphans(files)
    requires forall n <- BackupNames(files) :: Stem(n) != FormatStem(a.fetchedAt)
    ensures NoOrphans(Added(c, device, transport, files, a, compress, sidecar))
  {
    var files' := Added(c, device, transport, files, a, compress, sidecar);
    var conf := ConfName(FormatStem(a.fetchedAt), compress);
    AddedFrame(c, device, transport, files, a, compress, sidecar);
    FreshName(files, a.fetchedAt, compress);
    SidecarOfStem(conf);
    hide Classify, FormatStem, ConfName, MetaName, SidecarPathFor, StripSuffix;
    forall name <- files' | StripSuffix(name, SIDECAR).Some?
      ensures exists b <- BackupNames(files') :: SidecarPathFor(b) == name
    {
      if name in files {
        var b :| b in BackupNames(files) && SidecarPathFor(b) == name;
        assert b in BackupNames(files');
      } else {
        assert conf in BackupNames(files') && SidecarPathFor(conf) == name;
      }
    }
  }

  // ----- Removing the oldest -----

  lemma SidecarsDiffer(files: Files, m: string, n: string)
    requires DistinctStems(files) && m in BackupNames(files) && n in BackupNames(files) && m != n
    ensures SidecarPathFor(m) != SidecarPathFor(n)
  {
    SidecarOfStem(m);
    SidecarOfStem(n);
    if SidecarPathFor(m) == SidecarPathFor(n) {
      MetaNameInjective(Stem(m), Stem(n));
    }
  }

  function Deleted(files: Files, name: string): Files {
    files - {name} - {SidecarPathFor(name)}
  }

  lemma DeletedFrame(files: Files, p: string)
    requires DistinctStems(files) && p in BackupNames(files)
    ensures BackupNames(Deleted(files, p)) == BackupNames(files) - {p}
    ensures SameOn(files, Deleted(files, p), BackupNames(files) - {p})
  {
    BackupSidecar(p);
    forall n <- BackupNames(files) - {p}
      ensures SidecarPathFor(n) != SidecarPathFor(p) && SidecarPathFor(n) != p && n != SidecarPathFor(p)
    {
      SidecarsDiffer(files, p, n);
      BackupSidecar(n);
    }
    DeleteFrame(files, p, SidecarPathFor(p));
  }

  lemma DeleteFrame(files: Files, p: string, sidecar: string)
    requires p in BackupNames(files) && !IsBackup(sidecar)
    requires forall n <- BackupNames(files) - {p} :: SidecarPathFor(n) != sidecar && SidecarPathFor(n) != p
    ensures BackupNames(files - {p} - {sidecar}) == BackupNames(files) - {p}
    ensures SameOn(files, files - {p} - {sidecar}, BackupNames(files) - {p})
  {
    hide IsBackup, SidecarPathFor;
    var files' := files - {p} - {sidecar};
    forall n <- BackupNames(files) - {p}
      ensures n in files' && files'[n] == files[n]
    {
      assert n != p && n != sidecar;
    }
  }

  lemma DeletedSidecars(files: Files, p: string)
    requires DistinctStems(files) && NoOrphans(files) && p in BackupNames(files)
    ensures DistinctStems(Deleted(files, p)) && NoOrphans(Deleted(files, p))
  {
    var files' := Deleted(files, p);
    DeletedFrame(files, p);
    hide Classify, SidecarPathFor, StripSuffix;
    forall name <- files' | StripSuffix(name, SIDECAR).Some?
      ensures exists b <- BackupNames(files') :: SidecarPathFor(b) == name
    {
      var b :| b in BackupNames(files) && SidecarPathFor(b) == name;
      assert b in BackupNames(files');
    }
  }

  lemma DeletedListing(c: Codecs, device: string, files: Files, es: seq<Entry>)
    requires DistinctStems(files) && IsListing(c, device, files, es) && es != []
    ensures es[0].path in BackupNames(files)
    ensures IsListing(c, device, Deleted(files, es[0].path), es[1..])
  {
    ListingIsDistinct(c, device, files, es);
    assert es[0] in es;
    var p := es[0].path;
    var files', names := Deleted(files, p), BackupNames(files) - {p};
    DeletedFrame(files, p);
    EntriesFrame(c, device, files, files', names);
    OneMoreEntry(c, device, files, names, p);
    assert names + {p} == BackupNames(files);
    HeadAndTail(es);
    SortedTail(es, false);
    hide EntryOf, IsBackup, SidecarPathFor, Entry.Time, Sorted, EntriesOf, Deleted, DistinctStems;
    assert Readable(c, device, files');
  }

  lemma TruthfulFrame(c: Codecs, files: Files, files': Files, es: seq<Entry>, names: set<string>)
    requires SameOn(files, files', names)
    requires forall e <- es :: e.path in names && Truthful(c, files, e)
    ensures forall e <- es :: Truthful(c, files', e)
  {
    forall e <- es ensures Truthful(c, files', e) {
      EntryFrame(c, "", files, files', e.path);
    }
  }

  lemma TruthfulTail(c: Codecs, device: string, files: Files, es: seq<Entry>)
    requires Consistent(c, device, files, es) && es != []
    ensures forall e <- es[1..] :: e.path in BackupNames(files) - {es[0].path} && Truthful(c, files, e)
  {
    ListingIsDistinct(c, device, files, es);
    hide EntryOf, IsListing, IsBackup, Truthful, DistinctStems, NoOrphans, Entry.Time;
    assert forall j :: 0 <= j < |es| - 1 ==> es[1..][j] == es[j + 1];
  }

  lemma DeletedIsConsistent(c: Codecs, device: string, files: Files, es: seq<Entry>)
    requires Consistent(c, device, files, es) && es != []
    ensures es[0].path in BackupNames(files)
    ensures Consistent(c, device, Deleted(files, es[0].path), es[1..])
  {
    hide EntryOf, IsBackup, SidecarPathFor, Entry.Time, IsListing, Deleted, DistinctStems, NoOrphans, Content, Truthful;
    hide SameOn;
    var p := es[0].path;
    DeletedListing(c, device, files, es);
    DeletedSidecars(files, p);
    DeletedFrame(files, p);
    TruthfulTail(c, device, files, es);
    TruthfulFrame(c, files, Deleted(files, p), es[1..], BackupNames(files) - {p});
  }

  lemma {:induction false} OldestRemoved(c: Codecs, device: string, files: Files, es: seq<Entry>, n: nat)
    requires Consistent(c, device, files, es) && n <= |es|
    ensures Consistent(c, device, Without(files, es[..n]), es[n..])
    decreases n
  {
    hide Consistent;
    if n == 0 {
      assert Without(files, es[..0]) == files && es[0..] == es;
    } else {
      var p := es[0].path;
      DeletedIsConsistent(c, device, files, es);
      OldestRemoved(c, device, Deleted(files, p), es[1..], n - 1);
      assert es[1..][..n - 1] == es[..n][1..] && es[1..][n - 1..] == es[n..];
      WithoutFirst(files, es[0], es[..n][1..], es[..n]);
    }
  }

  lemma WithoutReversed(files: Files, es: seq<Entry>)
    ensures Without(files, Reverse(es)) == Without(files, es)
  {
    hide SidecarPathFor, Reverse;
    forall e: Entry ensures e in Reverse(es) <==> e in es {
      assert e in multiset(Reverse(es)) <==> e in multiset(es);
    }
  }

  // ----- The marker -----

  lemma MarkedIsConsistent(c: Codecs, device: string, files: Files, es: seq<Entry>, mark: Bytes)
    requires Consistent(c, device, files, es)
    ensures Consistent(c, device, files[MARKER := mark], es)
  {
    var files', names := files[MARKER := mark], BackupNames(files);
    SidecarIsNoBackup("");
    forall n <- names ensures n != MARKER && SidecarPathFor(n) != MARKER {
      SidecarOfStem(n);
    }
    WriteFrame(files, files', names, MARKER);
    EntriesFrame(c, device, files, files', names);
    ListingIsDistinct(c, device, files, es);
    MarkerIsNoSidecar();
    hide EntryOf, IsBackup, SidecarPathFor, Entry.Time, EntriesOf, Content, StripSuffix, Classify;
    assert BackupNames(files') == names;
    assert Readable(c, device, files');
    forall e <- es ensures Truthful(c, files', e) {
      assert Truthful(c, files, e);
    }
  }

  lemma MarkerIsNoSidecar()
    ensures StripSuffix(MARKER, SIDECAR).None?
  {
    forall t: string ensures MARKER != t + SIDECAR {
      var u := t + SIDECAR;
      assert u[|u| - 1] == 'n' && MARKER[|MARKER| - 1] == 's';
    }
  }

  // ----- Each step on the directory is the step on the abstract store -----

  function SnapOf(c: Codecs, a: Artifact): Snap {
    Snap(a.fetchedAt.Truncated().Instant(), c.DedupHash(a.content))
  }

  function OpOf(c: Codecs, ev: Event): Op {
    match ev
    case Run(a, cfg, retentionAt, _) => RecordAndPrune(SnapOf(c, a), cfg.days, cfg.minCopies, retentionAt)
    case FailedFetch => Skip
    case Crash(a) => Record(SnapOf(c, a))
  }

  function Ops(c: Codecs, events: seq<Event>): seq<Op> {
    seq(|events|, i requires 0 <= i < |events| => OpOf(c, events[i]))
  }

  function Snaps(es: seq<Entry>): (r: seq<Snap>)
    ensures |r| == |es|
  {
    seq(|es|, i requires 0 <= i < |es| => Snap(es[i].Time(), es[i].sha256))
  }

  lemma {:induction false} RecentAgrees(es: seq<Entry>, cutoff: int)
    ensures Recent(Snaps(es), cutoff) == RecentCount(es, cutoff)
  {
    hide Entry.Time;
    if es != [] {
      RecentAgrees(es[1..], cutoff);
      assert Snaps(es)[1..] == Snaps(es[1..]);
    }
  }

  lemma ConsistentListing(c: Codecs, device: string, files: Files, es: seq<Entry>)
    requires Consistent(c, device, files, es)
    ensures Readable(c, device, files) && Ascending(es)
    ensures forall listed: seq<Entry> :: IsListing(c, device, files, listed) ==> listed == es
  {
    ListingIsAscending(c, device, files, es);
    forall listed: seq<Entry> | IsListing(c, device, files, listed) ensures listed == es {
      ListingIsUnique(c, device, files, es, listed);
    }
  }

  lemma SavedSnaps(es: seq<Entry>, e: Entry, s: Snap)
    requires e.Time() == s.at && e.sha256 == s.sha
    ensures Snaps(if Unchanged(es, s.sha) then es else es + [e]) == Save(Snaps(es), s)
  {
    hide Entry.Time;
  }

  lemma NewEntryIsSnap(c: Codecs, device: string, a: Artifact, compress: bool)
    requires a.fetchedAt.Valid()
    ensures var e := NewEntry(c, device, a, compress); e.Time() == SnapOf(c, a).at && e.sha256 == SnapOf(c, a).sha
  {
    hide DateTime.Instant;
  }

  lemma AddedKeepsMarker(c: Codecs, device: string, transport: string, files: Files, a: Artifact, compress: bool,
                         sidecar: bool)
    requires a.fetchedAt.Valid()
    ensures LastSuccessAt(c, Added(c, device, transport, files, a, compress, sidecar)) == LastSuccessAt(c, files)
  {
    var stem := FormatStem(a.fetchedAt);
    NamesAgree(stem, compress);
    SidecarOfStem(ConfName(stem, compress));
    SidecarIsNoBackup(stem);
    hide FormatStem, ConfName, MetaName;
  }

  lemma SaveRefines(c: Codecs, device: string, transport: string, files: Files, es: seq<Entry>, a: Artifact,
                    compress: bool, files': Files, out: Result<SaveOutcome, StorageError>) returns (es': seq<Entry>)
    requires c.Lawful() && a.fetchedAt.Valid() && Consistent(c, device, files, es)
    requires forall e <- es :: e.Time() < SnapOf(c, a).at
    requires SaveStep(c, device, transport, files, a, compress, files', out)
    ensures out.Ok? && Consistent(c, device, files', es') && Snaps(es') == Save(Snaps(es), SnapOf(c, a))
    ensures LastSuccessAt(c, files') == LastSuccessAt(c, files)
  {
    hide Consistent, IsListing, Readable, DateTime.Instant, Entry.Time;
    hide LastSuccessAt, NewEntry, Snaps, Save, Written, HalfWritten;
    ConsistentListing(c, device, files, es);
    var listed: seq<Entry> :| SaveFrom(c, device, transport, files, listed, a, compress, files', out);
    var e := NewEntry(c, device, a, compress);
    NewEntryIsSnap(c, device, a, compress);
    SavedSnaps(es, e, SnapOf(c, a));
    if Unchanged(es, c.DedupHash(a.content)) {
      es' := es;
    } else {
      AddedIsConsistent(c, device, transport, files, es, a, compress, true);
      AddedKeepsMarker(c, device, transport, files, a, compress, true);
      es' := es + [e];
    }
  }

  lemma CrashRefines(c: Codecs, device: string, transport: string, files: Files, es: seq<Entry>, a: Artifact,
                     files': Files)
    returns (es': seq<Entry>)
    requires c.Lawful() && a.fetchedAt.Valid() && Consistent(c, device, files, es)
    requires forall e <- es :: e.Time() < SnapOf(c, a).at
    requires CrashStep(c, device, files, a, files')
    ensures Consistent(c, device, files', es') && Snaps(es') == Save(Snaps(es), SnapOf(c, a))
    ensures LastSuccessAt(c, files') == LastSuccessAt(c, files)
  {
    hide Consistent, IsListing, Readable, DateTime.Instant, Entry.Time;
    hide LastSuccessAt, NewEntry, Snaps, Save, Written, HalfWritten;
    ConsistentListing(c, device, files, es);
    var listed: seq<Entry> :|
      IsListing(c, device, files, listed)
      && files' == if Unchanged(listed, c.DedupHash(a.content)) then files else HalfWritten(c, files, a, false);
    var e := NewEntry(c, device, a, false);
    NewEntryIsSnap(c, device, a, false);
    SavedSnaps(es, e, SnapOf(c, a));
    if Unchanged(es, c.DedupHash(a.content)) {
      es' := es;
    } else {
      AddedIsConsistent(c, device, transport, files, es, a, false, false);
      AddedKeepsMarker(c, device, transport, files, a, false, false);
      es' := es + [e];
    }
  }

  /** Retention removes whole backups and nothing else. */
  lemma WithoutKeepsMarker(files: Files, victims: seq<Entry>)
    requires forall v <- victims :: IsBackup(v.path)
    ensures MARKER in Without(files, victims) <==> MARKER in files
    ensures MARKER in files ==> Without(files, victims)[MARKER] == files[MARKER]
  {
    forall v <- victims ensures v.path != MARKER && SidecarPathFor(v.path) != MARKER {
      BackupSidecar(v.path);
    }
    hide IsBackup, SidecarPathFor;
  }

  lemma RetentionRefines(c: Codecs, device: string, files: Files, es: seq<Entry>, days: nat, minCopies: nat, now: int,
                         files': Files, out: Result<nat, StorageError>) returns (es': seq<Entry>)
    requires Consistent(c, device, files, es) && |es| <= U32
    requires RetentionStep(c, device, files, days, minCopies, now, files', out)
    ensures Consistent(c, device, files', es') && Snaps(es') == Prune(Snaps(es), days, minCopies, now)
    ensures es' == es[|es| - KeepCount(es, days, minCopies, now)..] && out == Ok(|es| - |es'|)
    ensures LastSuccessAt(c, files') == LastSuccessAt(c, files)
  {
    hide Consistent, IsListing, Readable, Entry.Time, Victims, Without, LastSuccessAt, Ascending;
    hide KeepCount, Prune, Snaps, Reverse, DistinctPaths, IsBackup;
    ConsistentListing(c, device, files, es);
    var listed: seq<Entry> :| RetentionFrom(c, device, files, listed, days, minCopies, now, files', out);
    VictimsAreListed(c, device, files, es, days, minCopies, now);
    MarkerSurvives(c, files, Victims(es, days, minCopies, now));
    var n := |es| - KeepCount(es, days, minCopies, now);
    VictimsOfAscending(es, days, minCopies, now);
    WithoutReversed(files, es[..n]);
    OldestRemoved(c, device, files, es, n);
    es' := es[n..];
    PrunedSnaps(es, days, minCopies, now);
  }

  lemma PrunedSnaps(es: seq<Entry>, days: nat, minCopies: nat, now: int)
    ensures Snaps(es[|es| - KeepCount(es, days, minCopies, now)..]) == Prune(Snaps(es), days, minCopies, now)
  {
    hide Entry.Time, RecentCount, Recent;
    RecentAgrees(es, Cutoff(days, now));
    assert Kept(Snaps(es), days, minCopies, now) == KeepCount(es, days, minCopies, now);
  }

  lemma MarkerSurvives(c: Codecs, files: Files, victims: seq<Entry>)
    requires forall v <- victims :: v.path in BackupNames(files)
    ensures LastSuccessAt(c, Without(files, victims)) == LastSuccessAt(c, files)
  {
    WithoutKeepsMarker(files, victims);
    hide Without;
  }

  /** Retention applied again at the same instant removes nothing, and with a minimum of
      one copy it never changes the newest hash, so never the next run's verdict. */
  lemma RetentionTwice(c: Codecs, device: string, files: Files, es: seq<Entry>, days: nat, minCopies: nat, now: int,
                       once: Files, out: Result<nat, StorageError>, twice: Files, out': Result<nat, StorageError>)
    requires Consistent(c, device, files, es) && |es| <= U32
    requires RetentionStep(c, device, files, days, minCopies, now, once, out)
    requires RetentionStep(c, device, once, days, minCopies, now, twice, out')
    ensures twice == once && out' == Ok(0)
    ensures minCopies >= 1 ==>
            forall left: seq<Entry> :: IsListing(c, device, once, left) ==> NewestHash(left) == NewestHash(es)
  {
    hide Consistent, IsListing, Readable, Entry.Time, Victims, KeepCount, LastSuccessAt, Prune, Snaps;
    var left := RetentionRefines(c, device, files, es, days, minCopies, now, once, out);
    ConsistentListing(c, device, files, es);
    ConsistentListing(c, device, once, left);
    RetentionIsStable(es, days, minCopies, now);
    var listed: seq<Entry> :| RetentionFrom(c, device, once, listed, days, minCopies, now, twice, out');
    assert Without(once, []) == once;
  }

  lemma RunRefines(c: Codecs, device: string, transport: string, files: Files, es: seq<Entry>, a: Artifact,
                   cfg: Settings, retentionAt: int, doneAt: int, files': Files,
                   out: Result<PipelineOutcome, BackupError>)
    returns (es': seq<Entry>)
    requires c.Lawful() && a.fetchedAt.Valid() && Consistent(c, device, files, es)
    requires |Save(Snaps(es), SnapOf(c, a))| <= U32
    requires forall e <- es :: e.Time() < SnapOf(c, a).at
    requires RunStep(c, device, transport, files, Some(a), cfg, retentionAt, doneAt, files', out)
    ensures out.Ok? && Consistent(c, device, files', es')
    ensures Snaps(es') == Prune(Save(Snaps(es), SnapOf(c, a)), cfg.days, cfg.minCopies, retentionAt)
    ensures LastSuccessAt(c, files') == Some(doneAt)
  {
    hide Consistent, SaveStep, RetentionStep, Save, Prune, SnapOf, Snaps, Entry.Time;
    var saved: Files, outcome: Result<SaveOutcome, StorageError> :|
      && SaveStep(c, device, transport, files, a, cfg.compress, saved, outcome)
      && match outcome
         case Err(e) => out == Err(Backup.Store(e)) && files' == saved
         case Ok(o) =>
           && FinishStep(c, device, saved, cfg, retentionAt, doneAt, files')
           && out == Ok(PipelineOutcome(o.changed, |a.content|, o.sha256));
    var kept := SaveRefines(c, device, transport, files, es, a, cfg.compress, saved, outcome);
    var pruned: Files, removed: Result<nat, StorageError> :|
      && RetentionStep(c, device, saved, cfg.days, cfg.minCopies, retentionAt, pruned, removed)
      && files' == pruned[MARKER := c.encodeTime(doneAt)];
    es' := RetentionRefines(c, device, saved, kept, cfg.days, cfg.minCopies, retentionAt, pruned, removed);
    MarkedIsConsistent(c, device, pruned, es', c.encodeTime(doneAt));
  }

  lemma StepRefines(c: Codecs, device: string, transport: string, files: Files, es: seq<Entry>, ev: Event,
                    files': Files)
    returns (es': seq<Entry>)
    requires c.Lawful() && ev.Valid() && Consistent(c, device, files, es)
    requires ev.Run? ==> |Save(Snaps(es), SnapOf(c, ev.a))| <= U32
    requires !ev.FailedFetch? ==> forall e <- es :: e.Time() < SnapOf(c, ev.a).at
    requires EventStep(c, device, transport, files, ev, files')
    ensures Consistent(c, device, files', es') && Snaps(es') == Apply(Snaps(es), OpOf(c, ev))
    ensures LastSuccessAt(c, files') == if ev.Run? then Some(ev.doneAt) else LastSuccessAt(c, files)
  {
    hide Consistent, RunStep, CrashStep, Save, Prune, SnapOf, Snaps, Entry.Time;
    match ev
    case Run(a, cfg, retentionAt, doneAt) =>
      var out: Result<PipelineOutcome, BackupError> :|
        RunStep(c, device, transport, files, Some(a), cfg, retentionAt, doneAt, files', out);
      es' := RunRefines(c, device, transport, files, es, a, cfg, retentionAt, doneAt, files', out);
    case FailedFetch => es' := es;
    case Crash(a) => es' := CrashRefines(c, device, transport, files, es, a, files');
  }

  // ----- Whatever the fetch times: every run completes -----

  /** Every backup name and every sidecar can be read. */
  ghost predicate Sound(c: Codecs, files: Files) {
    && (forall name <- files :: IsBackup(name) ==> ParseStem(Classify(name).value.0).Some?)
    && (forall name <- files :: StripSuffix(name, SIDECAR).Some? ==> c.decodeMeta(files[name]).Some?)
  }

  lemma SoundIsReadable(c: Codecs, device: string, files: Files)
    requires Sound(c, files)
    ensures Readable(c, device, files)
  {
    forall name <- BackupNames(files) ensures EntryOf(c, device, files, name).Ok? {
      SidecarOfStem(name);
    }
  }

  lemma HalfWrittenIsSound(c: Codecs, files: Files, a: Artifact, compress: bool)
    requires Sound(c, files) && a.fetchedAt.Valid()
    ensures Sound(c, HalfWritten(c, files, a, compress))
  {
    StemRoundTrip(a.fetchedAt);
    NamesAgree(FormatStem(a.fetchedAt), compress);
    BackupIsNoSidecar(ConfName(FormatStem(a.fetchedAt), compress));
    hide Classify, ParseStem, FormatStem, ConfName, StripSuffix;
  }

  lemma BackupIsNoSidecar(name: string)
    requires IsBackup(name)
    ensures StripSuffix(name, SIDECAR).None?
  {
    if StripSuffix(name, SIDECAR).Some? {
      SidecarIsNoBackup(StripSuffix(name, SIDECAR).value);
    }
  }

  lemma WrittenIsSound(c: Codecs, device: string, transport: string, files: Files, a: Artifact, compress: bool)
    requires c.Lawful() && Sound(c, files) && a.fetchedAt.Valid()
    ensures Sound(c, Written(c, device, transport, files, a, compress))
  {
    HalfWrittenIsSound(c, files, a, compress);
    SidecarIsNoBackup(FormatStem(a.fetchedAt));
    hide HalfWritten, Classify, ParseStem, FormatStem, MetaName, StripSuffix;
  }

  lemma SaveIsSound(c: Codecs, device: string, transport: string, files: Files, a: Artifact, compress: bool,
                    files': Files, out: Result<SaveOutcome, StorageError>)
    requires c.Lawful() && Sound(c, files) && a.fetchedAt.Valid()
    requires SaveStep(c, device, transport, files, a, compress, files', out)
    ensures out.Ok? && Sound(c, files')
  {
    SoundIsReadable(c, device, files);
    WrittenIsSound(c, device, transport, files, a, compress);
    hide Sound, Readable, IsListing, Written, FormatStem;
  }

  lemma RetentionIsSound(c: Codecs, device: string, files: Files, days: nat, minCopies: nat, now: int,
                         files': Files, out: Result<nat, StorageError>)
    requires Sound(c, files) && RetentionStep(c, device, files, days, minCopies, now, files', out)
    ensures Sound(c, files') && out.Ok? && LastSuccessAt(c, files') == LastSuccessAt(c, files)
  {
    SoundIsReadable(c, device, files);
    var es: seq<Entry> :| RetentionFrom(c, device, files, es, days, minCopies, now, files', out);
    VictimsAreListed(c, device, files, es, days, minCopies, now);
    MarkerSurvives(c, files, Victims(es, days, minCopies, now));
    hide Classify, ParseStem, StripSuffix, SidecarPathFor, Victims, LastSuccessAt;
  }

  lemma MarkedIsSound(c: Codecs, files: Files, mark: Bytes)
    requires Sound(c, files)
    ensures Sound(c, files[MARKER := mark])
  {
    MarkerIsNoSidecar();
    SidecarIsNoBackup("");
    hide Classify, ParseStem, StripSuffix;
  }

  /** On a readable directory a run with a fetched configuration succeeds and leaves its
      finishing time in the marker; nothing else touches the marker. */
  lemma EventIsSound(c: Codecs, device: string, transport: string, files: Files, ev: Event, files': Files)
    requires c.Lawful() && ev.Valid() && Sound(c, files) && EventStep(c, device, transport, files, ev, files')
    ensures Sound(c, files')
    ensures LastSuccessAt(c, files') == if ev.Run? then Some(ev.doneAt) else LastSuccessAt(c, files)
  {
    hide Sound, SaveStep, RetentionStep;
    match ev
    case Run(a, cfg, retentionAt, doneAt) =>
      var out: Result<PipelineOutcome, BackupError> :|
        RunStep(c, device, transport, files, Some(a), cfg, retentionAt, doneAt, files', out);
      RunIsSound(c, device, transport, files, a, cfg, retentionAt, doneAt, files', out);
    case FailedFetch =>
    case Crash(a) =>
      SoundIsReadable(c, device, files);
      HalfWrittenIsSound(c, files, a, false);
      AddedKeepsMarker(c, device, transport, files, a, false, false);
      hide HalfWritten, LastSuccessAt, IsListing, Readable;
  }

  lemma RunIsSound(c: Codecs, device: string, transport: string, files: Files, a: Artifact, cfg: Settings,
                   retentionAt: int, doneAt: int, files': Files, out: Result<PipelineOutcome, BackupError>)
    requires c.Lawful() && a.fetchedAt.Valid() && Sound(c, files)
    requires RunStep(c, device, transport, files, Some(a), cfg, retentionAt, doneAt, files', out)
    ensures out.Ok? && Sound(c, files') && LastSuccessAt(c, files') == Some(doneAt)
    ensures ".last_success" in files' && c.decodeTime(files'[".last_success"]) == Some(doneAt)
  {
    hide Sound, SaveStep, RetentionStep;
    var saved: Files, outcome: Result<SaveOutcome, StorageError> :|
      && SaveStep(c, device, transport, files, a, cfg.compress, saved, outcome)
      && match outcome
         case Err(e) => out == Err(Backup.Store(e)) && files' == saved
         case Ok(o) =>
           && FinishStep(c, device, saved, cfg, retentionAt, doneAt, files')
           && out == Ok(PipelineOutcome(o.changed, |a.content|, o.sha256));
    SaveIsSound(c, device, transport, files, a, cfg.compress, saved, outcome);
    var pruned: Files, removed: Result<nat, StorageError> :|
      && RetentionStep(c, device, saved, cfg.days, cfg.minCopies, retentionAt, pruned, removed)
      && files' == pruned[MARKER := c.encodeTime(doneAt)];
    RetentionIsSound(c, device, saved, cfg.days, cfg.minCopies, retentionAt, pruned, removed);
    MarkedIsSound(c, pruned, c.encodeTime(doneAt));
  }

  // ----- Whole histories -----

  /** Every retention of the history finds as many backups as its 32-bit positions count. */
  predicate FitsPositions(ops: seq<Op>) {
    forall n :: 0 <= n < |ops| && ops[n].RecordAndPrune? ==> |Save(History.Store(ops[..n]), ops[n].snap)| <= U32
  }

  /** A history the promises are made for: valid fetches in later and later seconds. */
  ghost predicate WellTimed(c: Codecs, events: seq<Event>) {
    && c.Lawful()
    && (forall ev <- events :: ev.Valid())
    && Increasing(Fetched(Ops(c, events)))
    && FitsPositions(Ops(c, events))
  }

  lemma WellTimedPrefix(c: Codecs, events: seq<Event>)
    requires WellTimed(c, events) && events != []
    ensures WellTimed(c, events[..|events| - 1])
  {
    hide Codecs.Lawful, Fetched, OpOf, Increasing, Save, History.Store;
    var ops, n := Ops(c, events), |events| - 1;
    var before := ops[..n];
    assert Ops(c, events[..n]) == before;
    assert forall i :: 0 <= i < n ==> before[i] == ops[i] && before[..i] == ops[..i];
    IncreasingPrefix(ops);
  }

  /** Every directory a history leads to is consistent, and its listing is the abstract
      store of that history. */
  lemma {:induction false} DirectoryRefinesStore(c: Codecs, device: string, transport: string, events: seq<Event>,
                                                 files: Files)
    returns (es: seq<Entry>)
    requires WellTimed(c, events) && Reaches(c, device, transport, events, files)
    ensures Consistent(c, device, files, es) && Snaps(es) == History.Store(Ops(c, events))
    decreases |events|
  {
    hide Codecs.Lawful, Consistent, EventStep, Increasing, Apply, OpOf, Entry.Time, Save;
    var ops := Ops(c, events);
    if events == [] {
      EmptyIsConsistent(c, device);
      es := [];
    } else {
      var n := |events| - 1;
      var before: Files :|
        Reaches(c, device, transport, events[..n], before) && EventStep(c, device, transport, before, events[n], files);
      assert ops[..n] == Ops(c, events[..n]) && ops[n] == OpOf(c, events[n]);
      WellTimedPrefix(c, events);
      IncreasingPrefix(ops);
      var listed := DirectoryRefinesStore(c, device, transport, events[..n], before);
      StoreIsFetched(ops[..n]);
      NewerThanListed(c, events[n], listed, ops, n);
      OpIsOfEvent(c, events[n]);
      es := StepRefines(c, device, transport, before, listed, events[n], files);
    }
  }

  lemma OpIsOfEvent(c: Codecs, ev: Event)
    ensures OpOf(c, ev).Skip? <==> ev.FailedFetch?
    ensures OpOf(c, ev).RecordAndPrune? <==> ev.Run?
    ensures !ev.FailedFetch? ==> OpOf(c, ev).snap == SnapOf(c, ev.a)
  {
  }

  lemma NewerThanListed(c: Codecs, ev: Event, es: seq<Entry>, ops: seq<Op>, n: nat)
    requires ev.Valid() && n < |ops| && ops[n] == OpOf(c, ev) && Snaps(es) == History.Store(ops[..n])
    requires forall s <- History.Store(ops[..n]) :: s in Fetched(ops[..n])
    requires !ops[n].Skip? ==> forall s <- Fetched(ops[..n]) :: s.at < ops[n].snap.at
    ensures !ev.FailedFetch? ==> forall e <- es :: e.Time() < SnapOf(c, ev.a).at
  {
    hide Entry.Time, SnapOf, Fetched, History.Store;
    if !ev.FailedFetch? {
      forall e <- es ensures e.Time() < SnapOf(c, ev.a).at {
        var i :| 0 <= i < |es| && es[i] == e;
        assert Snaps(es)[i] in History.Store(ops[..n]);
      }
    }
  }

  /** However the directory is listed after any history in which no retention emptied it,
      the listing is a recent suffix of the run-length compression of all fetches, it is not empty once
      something was fetched, and no two neighbours in it have the same hash. */
  lemma ListingIsRecentHistory(c: Codecs, device: string, transport: string, events: seq<Event>, files: Files,
                               es: seq<Entry>)
    requires WellTimed(c, events) && NeverEmptied(Ops(c, events))
    requires Reaches(c, device, transport, events, files) && IsListing(c, device, files, es)
    ensures IsSuffix(Snaps(es), Rle(Fetched(Ops(c, events))))
    ensures Fetched(Ops(c, events)) != [] ==> es != []
    ensures forall i :: 0 < i < |es| ==> es[i - 1].sha256 != es[i].sha256
  {
    hide Consistent, IsListing, Entry.Time, Increasing, Rle, Fetched, History.Store;
    var listed := DirectoryRefinesStore(c, device, transport, events, files);
    ConsistentListing(c, device, files, listed);
    StoreIsSuffixOfRle(Ops(c, events));
    StoreHasNoRepeats(Ops(c, events));
    forall i | 0 < i < |es| ensures es[i - 1].sha256 != es[i].sha256 {
      assert Snaps(es)[i - 1].sha != Snaps(es)[i].sha;
    }
  }

  lemma {:induction false} LookupFinds(st: seq<Snap>, t: int) returns (k: nat)
    requires Lookup(st, t).Some? && Increasing(st)
    ensures k < |st| && st[k] == Lookup(st, t).value && st[k].at <= t
    ensures forall j :: k < j < |st| ==> st[j].at > t
  {
    var n := |st| - 1;
    if st[n].at <= t {
      k := n;
    } else {
      k := LookupFinds(st[..n], t);
    }
  }

  /** Position of an event's snapshot among the fetches. */
  lemma {:induction false} FetchIsRecorded(ops: seq<Op>, k: nat)
    requires k < |ops| && !ops[k].Skip?
    ensures ops[k].snap in Fetched(ops)
  {
    if k < |ops| - 1 { FetchIsRecorded(ops[..|ops| - 1], k); }
  }

  /** Point-in-time recovery. For every fetch of the history, written or skipped as
      unchanged, that is not older than the oldest backup left: the newest backup at or
      before it holds, in readable form, a configuration with the same dedup hash, and so
      the same normal form if the hash has no collisions. */
  lemma EveryFetchIsRecoverable(c: Codecs, device: string, transport: string, events: seq<Event>, files: Files,
                                es: seq<Entry>, k: nat)
    returns (e: Entry)
    requires WellTimed(c, events)
    requires Reaches(c, device, transport, events, files) && IsListing(c, device, files, es)
    requires k < |events| && !events[k].FailedFetch?
    requires es != [] && es[0].Time() <= SnapOf(c, events[k].a).at
    ensures e in es && e.Time() <= SnapOf(c, events[k].a).at
    ensures forall x <- es :: e.Time() < x.Time() ==> SnapOf(c, events[k].a).at < x.Time()
    ensures e.path in files && IsBackup(e.path) && Content(c, files, e.path).Some?
    ensures c.DedupHash(Content(c, files, e.path).value) == c.DedupHash(events[k].a.content)
    ensures c.CollisionFree() ==>
      Normalize.Normalized(Content(c, files, e.path).value) == Normalize.Normalized(events[k].a.content)
  {
    hide IsListing, DistinctStems, NoOrphans, DateTime.Instant, Entry.Time, Content, IsBackup;
    hide Increasing, Fetched, History.Store, Lookup, Normalize.Normalized;
    var listed := DirectoryRefinesStore(c, device, transport, events, files);
    ConsistentListing(c, device, files, listed);
    var ops, x := Ops(c, events), SnapOf(c, events[k].a);
    FetchIsRecorded(ops, k);
    assert ops[k].snap == x;
    assert Snaps(es)[0].at == es[0].Time();
    EveryStateIsRecoverable(ops, x);
    StoreIsIncreasing(ops);
    var i := LookupFinds(Snaps(es), x.at);
    e := es[i];
    assert Truthful(c, files, e);
    forall y <- es | e.Time() < y.Time() ensures x.at < y.Time() {
      var j :| 0 <= j < |es| && es[j] == y;
      LaterInListing(es, i, j);
      assert Snaps(es)[j].at == y.Time();
    }
  }

  lemma LaterInListing(es: seq<Entry>, i: nat, j: nat)
    requires Ascending(es) && i < |es| && j < |es| && es[i].Time() < es[j].Time()
    ensures i < j
  {
    hide Entry.Time;
  }

  // ----- What a save writes -----

  /** The sidecar tells the truth about the file it stands beside. */
  ghost predicate Describes(c: Codecs, device: string, transport: string, a: Artifact, files: Files, name: string,
                            sidecar: string)
  {
    && name in files && IsBackup(name) && Content(c, files, name) == Some(a.content)
    && sidecar in files && c.decodeMeta(files[sidecar]).Some?
    && var m := c.decodeMeta(files[sidecar]).value;
    && m.device == device && m.transport == transport
    && m.hostname == a.hostname && m.fetchedAt == a.fetchedAt && m.firmware == a.firmware && m.serial == a.serial
    && m.sizeBytes == |a.content| && m.rawSha256 == Some(c.sha256(a.content))
    && m.sha256 == c.sha256(Normalize.Normalized(a.content))
    && m.compressed == Classify(name).value.1
  }

  /** A save that writes leaves the configuration under the name of its time and form, and
      beside it a sidecar with the size and hashes of what the file holds and everything the
      fetch reported; nothing else changes. */
  lemma SaveIsDescribed(c: Codecs, device: string, transport: string, files: Files, a: Artifact, compress: bool,
                        files': Files, out: Result<SaveOutcome, StorageError>)
    requires c.Lawful() && a.fetchedAt.Valid()
    requires SaveStep(c, device, transport, files, a, compress, files', out) && out.Ok? && out.value.changed
    ensures var name := FormatStem(a.fetchedAt) + (if compress then ".conf.gz" else ".conf");
            var sidecar := FormatStem(a.fetchedAt) + ".json";
            && Describes(c, device, transport, a, files', name, sidecar)
            && Classify(name) == Some((FormatStem(a.fetchedAt), compress)) && SidecarPathFor(name) == sidecar
            && out.value == SaveOutcome(true, name, c.DedupHash(a.content))
            && files'.Keys == files.Keys + {name, sidecar}
            && forall n <- files :: n != name && n != sidecar ==> files'[n] == files[n]
  {
    hide *;
    ChangedIsWritten(c, device, transport, files, a, compress, files', out);
    WrittenIsDescribed(c, device, transport, files, a, compress, FormatStem(a.fetchedAt));
    NamesAgree(FormatStem(a.fetchedAt), compress);
  }

  lemma ChangedIsWritten(c: Codecs, device: string, transport: string, files: Files, a: Artifact, compress: bool,
                         files': Files, out: Result<SaveOutcome, StorageError>)
    requires a.fetchedAt.Valid()
    requires SaveStep(c, device, transport, files, a, compress, files', out) && out.Ok? && out.value.changed
    ensures files' == Written(c, device, transport, files, a, compress)
    ensures out.value == SaveOutcome(true, ConfName(FormatStem(a.fetchedAt), compress), c.DedupHash(a.content))
  {
    hide Written, FormatStem, ConfName, IsListing, Readable, Normalize.Normalized;
  }

  lemma WrittenIsDescribed(c: Codecs, device: string, transport: string, files: Files, a: Artifact, compress: bool,
                           stem: string)
    requires c.Lawful() && a.fetchedAt.Valid() && stem == FormatStem(a.fetchedAt)
    ensures var name, sidecar := ConfName(stem, compress), MetaName(stem);
            var files' := Written(c, device, transport, files, a, compress);
            && Describes(c, device, transport, a, files', name, sidecar)
            && files'.Keys == files.Keys + {name, sidecar}
            && forall n <- files :: n != name && n != sidecar ==> files'[n] == files[n]
  {
    hide *;
    NamesAgree(stem, compress);
    SidecarOfStem(ConfName(stem, compress));
    PairIsDescribed(c, device, transport, files, a, compress, ConfName(stem, compress), MetaName(stem));
    WrittenPair(c, device, transport, files, a, compress, stem);
  }

  lemma WrittenPair(c: Codecs, device: string, transport: string, files: Files, a: Artifact, compress: bool,
                    stem: string)
    requires a.fetchedAt.Valid() && stem == FormatStem(a.fetchedAt)
    ensures Written(c, device, transport, files, a, compress) ==
      files[ConfName(stem, compress) := Body(c, a.content, compress)]
           [MetaName(stem) := c.encodeMeta(MetaOf(c, device, transport, a, compress))]
  {
    hide FormatStem, ConfName, MetaName, Body, MetaOf;
  }

  lemma PairIsDescribed(c: Codecs, device: string, transport: string, files: Files, a: Artifact, compress: bool,
                        name: string, sidecar: string)
    requires c.Lawful() && name != sidecar && Classify(name).Some? && Classify(name).value.1 == compress
    ensures var files' := files[name := Body(c, a.content, compress)]
                               [sidecar := c.encodeMeta(MetaOf(c, device, transport, a, compress))];
            && Describes(c, device, transport, a, files', name, sidecar)
            && files'.Keys == files.Keys + {name, sidecar}
            && forall n <- files :: n != name && n != sidecar ==> files'[n] == files[n]
  {
    hide Classify, Normalize.Normalized;
  }

  /** Without hash collisions a save writes nothing exactly when the newest stored
      configuration has the normal form of the fetched one. */
  lemma SaveSkipsExactly(c: Codecs, device: string, transport: string, files: Files, es: seq<Entry>, a: Artifact,
                         compress: bool, files': Files, out: Result<SaveOutcome, StorageError>)
    requires c.Lawful() && c.CollisionFree() && a.fetchedAt.Valid() && Consistent(c, device, files, es)
    requires SaveStep(c, device, transport, files, a, compress, files', out)
    ensures out.Ok? && (es == [] ==> out.value.changed)
    ensures es != [] ==>
      var newest := es[|es| - 1];
      && newest.path in files && IsBackup(newest.path) && Content(c, files, newest.path).Some?
      && (!out.value.changed <==>
          Normalize.Normalized(Content(c, files, newest.path).value) == Normalize.Normalized(a.content))
      && (!out.value.changed ==> files' == files && out.value.path == newest.path)
  {
    SaveVerdict(c, device, transport, files, es, a, compress, files', out);
    hide SaveStep, IsListing, DistinctStems, NoOrphans, Classify, Content, Normalize.Normalized;
    if es != [] { assert Truthful(c, files, es[|es| - 1]); }
  }

  lemma SaveVerdict(c: Codecs, device: string, transport: string, files: Files, es: seq<Entry>, a: Artifact,
                    compress: bool, files': Files, out: Result<SaveOutcome, StorageError>)
    requires a.fetchedAt.Valid() && Consistent(c, device, files, es)
    requires SaveStep(c, device, transport, files, a, compress, files', out)
    ensures out.Ok? && (!out.value.changed <==> Unchanged(es, c.DedupHash(a.content)))
    ensures !out.value.changed ==> files' == files && out.value.path == es[|es| - 1].path
  {
    ConsistentListing(c, device, files, es);
    hide Consistent, IsListing, Readable, Entry.Time, Written, FormatStem, ConfName, Normalize.Normalized;
  }

  /** What a run reports: failure exactly when nothing was fetched or the directory cannot
      be listed, and then nothing happened; otherwise the size and dedup hash of the fetch,
      and whether that hash was new. */
  lemma RunReports(c: Codecs, device: string, transport: string, files: Files, fetch: Option<Artifact>, cfg: Settings,
                   retentionAt: int, doneAt: int, files': Files, out: Result<PipelineOutcome, BackupError>)
    requires fetch.Some? ==> fetch.value.fetchedAt.Valid()
    requires RunStep(c, device, transport, files, fetch, cfg, retentionAt, doneAt, files', out)
    ensures out.Err? <==> fetch.None? || !Readable(c, device, files)
    ensures out.Err? ==> files' == files
    ensures out.Ok? ==>
      var hash := c.DedupHash(fetch.value.content);
      exists es: seq<Entry> ::
        && IsListing(c, device, files, es)
        && out.value == PipelineOutcome(NewestHash(es) != Some(hash), |fetch.value.content|, hash)
  {
    hide IsListing, Readable, Written, FinishStep, Normalize.Normalized;
  }

  /** After a run that found something new, its file is there in the configured form with a
      true sidecar, unless retention may delete even the newest backup. */
  lemma RunIsDescribed(c: Codecs, device: string, transport: string, files: Files, es: seq<Entry>, a: Artifact,
                       cfg: Settings, retentionAt: int, doneAt: int, files': Files,
                       out: Result<PipelineOutcome, BackupError>)
    requires c.Lawful() && a.fetchedAt.Valid() && Consistent(c, device, files, es)
    requires |Save(Snaps(es), SnapOf(c, a))| <= U32
    requires forall e <- es :: e.Time() < SnapOf(c, a).at
    requires RunStep(c, device, transport, files, Some(a), cfg, retentionAt, doneAt, files', out)
    requires !Unchanged(es, c.DedupHash(a.content))
    requires cfg.minCopies >= 1 || SnapOf(c, a).at >= retentionAt - cfg.days * DAY
    ensures Describes(c, device, transport, a, files',
                      FormatStem(a.fetchedAt) + (if cfg.compress then ".conf.gz" else ".conf"),
                      FormatStem(a.fetchedAt) + ".json")
  {
    hide Consistent, SaveStep, RetentionStep, Save, Snaps, SnapOf, Unchanged, Entry.Time, Describes, FormatStem;
    var saved: Files, outcome: Result<SaveOutcome, StorageError> :|
      && SaveStep(c, device, transport, files, a, cfg.compress, saved, outcome)
      && match outcome
         case Err(e) => out == Err(Backup.Store(e)) && files' == saved
         case Ok(o) =>
           && FinishStep(c, device, saved, cfg, retentionAt, doneAt, files')
           && out == Ok(PipelineOutcome(o.changed, |a.content|, o.sha256));
    SaveVerdict(c, device, transport, files, es, a, cfg.compress, saved, outcome);
    var pruned: Files, removed: Result<nat, StorageError> :|
      && RetentionStep(c, device, saved, cfg.days, cfg.minCopies, retentionAt, pruned, removed)
      && files' == pruned[MARKER := c.encodeTime(doneAt)];
    SaveIsDescribed(c, device, transport, files, a, cfg.compress, saved, outcome);
    ChangedIsWritten(c, device, transport, files, a, cfg.compress, saved, outcome);
    NewestSurvives(c, device, transport, files, es, a, cfg, retentionAt, pruned, removed);
    NamesAgree(FormatStem(a.fetchedAt), cfg.compress);
    var name := ConfName(FormatStem(a.fetchedAt), cfg.compress);
    DescribedFrame(c, device, transport, a, saved, pruned, c.encodeTime(doneAt), name);
  }

  /** What is left of a backup that retention spares. */
  lemma SparedFrame(files: Files, victims: seq<Entry>, name: string)
    requires DistinctStems(files) && name in BackupNames(files) && forall v <- victims :: v.path in BackupNames(files)
    requires name in Without(files, victims)
    ensures var left, sidecar := Without(files, victims), SidecarPathFor(name);
            left[name] == files[name] && (sidecar in files ==> sidecar in left && left[sidecar] == files[sidecar])
  {
    forall v <- victims ensures v.path != SidecarPathFor(name) && SidecarPathFor(v.path) != SidecarPathFor(name) {
      BackupSidecar(name);
      SidecarsDiffer(files, v.path, name);
    }
    hide SidecarPathFor, IsBackup;
  }

  lemma NewestSurvives(c: Codecs, device: string, transport: string, files: Files, es: seq<Entry>, a: Artifact,
                       cfg: Settings, retentionAt: int, pruned: Files, removed: Result<nat, StorageError>)
    requires c.Lawful() && a.fetchedAt.Valid() && Consistent(c, device, files, es)
    requires forall e <- es :: e.Time() < SnapOf(c, a).at
    requires !Unchanged(es, c.DedupHash(a.content)) && |Save(Snaps(es), SnapOf(c, a))| <= U32
    requires cfg.minCopies >= 1 || SnapOf(c, a).at >= retentionAt - cfg.days * DAY
    requires var saved := Written(c, device, transport, files, a, cfg.compress);
             RetentionStep(c, device, saved, cfg.days, cfg.minCopies, retentionAt, pruned, removed)
    ensures var saved, name := Written(c, device, transport, files, a, cfg.compress),
                               ConfName(FormatStem(a.fetchedAt), cfg.compress);
            && name in saved && name in pruned && pruned[name] == saved[name]
            && var sidecar := SidecarPathFor(name);
               (sidecar in saved ==> sidecar in pruned && pruned[sidecar] == saved[sidecar])
  {
    var saved, e := Written(c, device, transport, files, a, cfg.compress), NewEntry(c, device, a, cfg.compress);
    hide *;
    EntryOfSave(c, device, transport, files, a, cfg.compress);
    AddedIsConsistent(c, device, transport, files, es, a, cfg.compress, true);
    NewEntryIsSnap(c, device, a, cfg.compress);
    SavedSnaps(es, e, SnapOf(c, a));
    NewestIsSpared(c, device, saved, es, e, cfg.days, cfg.minCopies, retentionAt, pruned, removed);
  }

  lemma EntryOfSave(c: Codecs, device: string, transport: string, files: Files, a: Artifact, compress: bool)
    requires a.fetchedAt.Valid()
    ensures NewEntry(c, device, a, compress).path == ConfName(FormatStem(a.fetchedAt), compress)
    ensures Added(c, device, transport, files, a, compress, true) == Written(c, device, transport, files, a, compress)
    ensures SnapOf(c, a) == Snap(a.fetchedAt.Truncated().Instant(), c.DedupHash(a.content))
  {
    hide Written, ConfName, FormatStem, Codecs.DedupHash, DateTime.Instant;
  }

  lemma NewestIsSpared(c: Codecs, device: string, files: Files, es: seq<Entry>, e: Entry, days: nat, minCopies: nat,
                       now: int, files': Files, out: Result<nat, StorageError>)
    requires Consistent(c, device, files, es + [e]) && |es + [e]| <= U32
    requires minCopies >= 1 || e.Time() >= now - days * DAY
    requires RetentionStep(c, device, files, days, minCopies, now, files', out)
    ensures var sidecar := SidecarPathFor(e.path);
            && e.path in files && e.path in files' && files'[e.path] == files[e.path]
            && (sidecar in files ==> sidecar in files' && files'[sidecar] == files[sidecar])
  {
    var kept := es + [e];
    hide Entry.Time, IsListing, NoOrphans, DistinctStems, Readable, RetentionStep, IsBackup, SidecarPathFor, KeepCount;
    ConsistentListing(c, device, files, kept);
    NewestIsKept(kept, days, minCopies, now);
    var left := RetentionRefines(c, device, files, kept, days, minCopies, now, files', out);
    assert e == left[|left| - 1] && e == kept[|es|] && Truthful(c, files', e) && Truthful(c, files, e);
    RetentionIsRemoval(c, device, files, days, minCopies, now, files', out, e.path);
  }

  lemma NewestIsKept(es: seq<Entry>, days: nat, minCopies: nat, now: int)
    requires es != [] && (minCopies >= 1 || es[|es| - 1].Time() >= Cutoff(days, now))
    ensures KeepCount(es, days, minCopies, now) >= 1
  {
    hide Entry.Time, Recent, RecentCount;
    RecentAgrees(es, Cutoff(days, now));
    RecentNewest(Snaps(es), Cutoff(days, now));
  }

  lemma RetentionIsRemoval(c: Codecs, device: string, files: Files, days: nat, minCopies: nat, now: int,
                           files': Files, out: Result<nat, StorageError>, name: string)
    requires Readable(c, device, files) && DistinctStems(files)
    requires RetentionStep(c, device, files, days, minCopies, now, files', out)
    requires name in BackupNames(files) && name in files'
    ensures var sidecar := SidecarPathFor(name);
            files'[name] == files[name] && (sidecar in files ==> sidecar in files' && files'[sidecar] == files[sidecar])
  {
    var es: seq<Entry> :| RetentionFrom(c, device, files, es, days, minCopies, now, files', out);
    VictimsAreListed(c, device, files, es, days, minCopies, now);
    SparedFrame(files, Victims(es, days, minCopies, now), name);
    hide Without, Victims, IsListing, SidecarPathFor, IsBackup;
  }

  lemma DescribedFrame(c: Codecs, device: string, transport: string, a: Artifact, saved: Files, pruned: Files,
                       mark: Bytes, name: string)
    requires IsBackup(name) && Describes(c, device, transport, a, saved, name, SidecarPathFor(name))
    requires name in pruned && pruned[name] == saved[name]
    requires var sidecar := SidecarPathFor(name); sidecar in pruned && pruned[sidecar] == saved[sidecar]
    ensures Describes(c, device, transport, a, pruned[MARKER := mark], name, SidecarPathFor(name))
  {
    BackupSidecar(name);
    hide SidecarPathFor, Normalize.Normalized;
  }

  // ----- The sidecar as a cache -----

  /** In every reachable directory a plain backup lists the same without its sidecar. */
  lemma SidecarIsACache(c: Codecs, device: string, files: Files, es: seq<Entry>, name: string)
    requires Consistent(c, device, files, es) && name in BackupNames(files) && !Classify(name).value.1
    ensures var files' := files - {SidecarPathFor(name)};
            name in files' && EntryOf(c, device, files', name) == EntryOf(c, device, files, name)
  {
    SidecarOfStem(name);
    var e := ListedEntry(c, device, files, es, name);
    assert Truthful(c, files, e);
  }

  /** After a plain save cut off before its sidecar the newest hash, and with it the next
      run's verdict, is what the completed save would have left. */
  lemma CutOffSaveIsSeenAlike(c: Codecs, device: string, transport: string, files: Files, es: seq<Entry>, a: Artifact,
                              cut: seq<Entry>, full: seq<Entry>)
    requires c.Lawful() && a.fetchedAt.Valid() && Consistent(c, device, files, es)
    requires forall e <- es :: e.Time() < a.fetchedAt.Truncated().Instant()
    requires IsListing(c, device, HalfWritten(c, files, a, false), cut)
    requires IsListing(c, device, Written(c, device, transport, files, a, false), full)
    ensures cut == full && NewestHash(cut) == Some(c.DedupHash(a.content))
  {
    hide Consistent, IsListing, DateTime.Instant, Entry.Time;
    AddedIsConsistent(c, device, transport, files, es, a, false, false);
    AddedIsConsistent(c, device, transport, files, es, a, false, true);
    ConsistentListing(c, device, HalfWritten(c, files, a, false), es + [NewEntry(c, device, a, false)]);
    ConsistentListing(c, device, Written(c, device, transport, files, a, false), es + [NewEntry(c, device, a, false)]);
  }

  /** A compressed one is not: until its sidecar exists it is listed under the hash of the
      compressed bytes, so it is seen alike exactly if that is the dedup hash: without
      collisions, if compressing gives the normal form of the configuration. */
  lemma CutOffCompressedSave(c: Codecs, device: string, files: Files, a: Artifact, compress: bool)
    requires a.fetchedAt.Valid() && MetaName(FormatStem(a.fetchedAt)) !in files
    ensures var half, conf := HalfWritten(c, files, a, compress), ConfName(FormatStem(a.fetchedAt), compress);
            && conf in half && IsBackup(conf) && EntryOf(c, device, half, conf).Ok?
            && (EntryOf(c, device, half, conf).value.sha256 == c.DedupHash(a.content)
                <==> !compress || c.sha256(c.gzip(a.content)) == c.DedupHash(a.content))
            && (c.CollisionFree() ==>
                  (EntryOf(c, device, half, conf).value.sha256 == c.DedupHash(a.content)
                   <==> !compress || c.gzip(a.content) == Normalize.Normalized(a.content)))
  {
    hide FormatStem, ParseStem, ConfName, MetaName;
    StemRoundTrip(a.fetchedAt);
    NamesAgree(FormatStem(a.fetchedAt), compress);
    SidecarOfStem(ConfName(FormatStem(a.fetchedAt), compress));
  }

  // ----- Saving in the second of a stored backup -----

  /** The file of `e` is as it was and is listed as it was. */
  ghost predicate Held(c: Codecs, device: string, files: Files, files': Files, e: Entry) {
    && e.path in files && e.path in files' && files'[e.path] == files[e.path]
    && IsBackup(e.path) && EntryOf(c, device, files', e.path) == Ok(e)
  }

  /** With a stem that no backup has, every earlier backup is held, and still truthful. */
  lemma NewStemKeepsAll(c: Codecs, device: string, transport: string, files: Files, es: seq<Entry>, a: Artifact,
                        compress: bool)
    requires a.fetchedAt.Valid() && Consistent(c, device, files, es)
    requires forall n <- BackupNames(files) :: Stem(n) != FormatStem(a.fetchedAt)
    ensures var files' := Written(c, device, transport, files, a, compress);
            forall e <- es :: Held(c, device, files, files', e) && Truthful(c, files', e)
  {
    var files' := Written(c, device, transport, files, a, compress);
    AddedFrame(c, device, transport, files, a, compress, true);
    assert Added(c, device, transport, files, a, compress, true) == files';
    EntriesFrame(c, device, files, files', BackupNames(files));
    ListingIsDistinct(c, device, files, es);
    TruthfulFrame(c, files, files', es, BackupNames(files));
    hide EntryOf, IsBackup, SidecarPathFor, Entry.Time, EntriesOf, Written, Truthful, FormatStem;
  }

  /** In the same form a configuration fetched in the second of a stored one takes its file,
      whatever else is in the directory. */
  lemma SameSecondOverwrites(c: Codecs, device: string, transport: string, files: Files, a: Artifact, compress: bool)
    requires a.fetchedAt.Valid() && ConfName(FormatStem(a.fetchedAt), compress) in files
    ensures var files' := Written(c, device, transport, files, a, compress);
            var conf := ConfName(FormatStem(a.fetchedAt), compress);
            BackupNames(files') == BackupNames(files) && files'[conf] == Body(c, a.content, compress)
  {
    NamesAgree(FormatStem(a.fetchedAt), compress);
    SidecarIsNoBackup(FormatStem(a.fetchedAt));
    hide FormatStem, ConfName, MetaName, IsBackup;
  }

  lemma UsedStemFiles(c: Codecs, device: string, transport: string, files: Files, a: Artifact, compress: bool,
                      n: string, files': Files, conf: string)
    requires a.fetchedAt.Valid() && DistinctStems(files)
    requires n in BackupNames(files) && Stem(n) == FormatStem(a.fetchedAt)
    requires files' == Written(c, device, transport, files, a, compress)
    requires conf == ConfName(FormatStem(a.fetchedAt), compress)
    ensures n in files' && files'[n] == (if n == conf then Body(c, a.content, compress) else files[n])
    ensures BackupNames(files') == BackupNames(files) <==> n == conf
  {
    var stem := FormatStem(a.fetchedAt);
    NamesAgree(stem, compress);
    SidecarIsNoBackup(stem);
    SidecarOfStem(n);
    if n == conf {
      SameSecondOverwrites(c, device, transport, files, a, compress);
    } else {
      assert Stem(conf) == Stem(n);
      hide FormatStem, ConfName, MetaName, Classify, SidecarPathFor;
      assert conf !in BackupNames(files) && conf in files' && IsBackup(conf);
    }
  }

  lemma UsedStemEntry(c: Codecs, device: string, transport: string, files: Files, a: Artifact, compress: bool,
                      n: string, files': Files)
    requires c.Lawful() && a.fetchedAt.Valid() && IsBackup(n) && Stem(n) == FormatStem(a.fetchedAt)
    requires files' == Written(c, device, transport, files, a, compress) && n in files'
    ensures EntryOf(c, device, files', n) ==
            Ok(Entry(device, n, |files'[n]|, a.fetchedAt.Truncated(), c.DedupHash(a.content)))
  {
    StemRoundTrip(a.fetchedAt);
    SidecarOfStem(n);
    hide FormatStem, ParseStem, ConfName, MetaName;
  }

  /** With the stem of a stored backup `n`: in the same form its file is replaced by the new
      one; in the other form it stays, but both share the sidecar, so it is listed under the
      new configuration's hash and is truthful only if that is its own. */
  lemma UsedStem(c: Codecs, device: string, transport: string, files: Files, es: seq<Entry>, a: Artifact,
                 compress: bool, n: string, files': Files, conf: string)
    requires c.Lawful() && a.fetchedAt.Valid() && Consistent(c, device, files, es)
    requires n in BackupNames(files) && Stem(n) == FormatStem(a.fetchedAt)
    requires files' == Written(c, device, transport, files, a, compress)
    requires conf == ConfName(FormatStem(a.fetchedAt), compress)
    ensures n in files' && files'[n] == (if n == conf then Body(c, a.content, compress) else files[n])
    ensures BackupNames(files') == BackupNames(files) <==> n == conf
    ensures EntryOf(c, device, files', n).Ok? && EntryOf(c, device, files', n).value.sha256 == c.DedupHash(a.content)
    ensures Content(c, files, n).Some?
    ensures Truthful(c, files', EntryOf(c, device, files', n).value) <==>
            n == conf || c.DedupHash(Content(c, files, n).value) == c.DedupHash(a.content)
  {
    UsedStemFiles(c, device, transport, files, a, compress, n, files', conf);
    UsedStemEntry(c, device, transport, files, a, compress, n, files');
    var e := ListedEntry(c, device, files, es, n);
    assert Truthful(c, files, e);
    if n == conf {
      NamesAgree(FormatStem(a.fetchedAt), compress);
    }
    hide EntryOf, FormatStem, ConfName, Written, IsListing, DistinctStems, NoOrphans;
    assert Content(c, files', n) == if n == conf then Some(a.content) else Content(c, files, n);
  }

  lemma SameTimeIsSameStem(c: Codecs, device: string, files: Files, es: seq<Entry>, e: Entry, t: DateTime)
    requires Consistent(c, device, files, es) && e in es && t.Valid()
    ensures e.path in BackupNames(files)
    ensures e.Time() == t.Truncated().Instant() <==> Stem(e.path) == FormatStem(t)
  {
    hide Consistent, Classify, FormatStem, ParseStem, EntryOf, DateTime.Instant;
    ListedPaths(c, device, files, es, e);
    EntryTime(c, device, files, e.path);
    StemRoundTrip(t);
    if e.Time() == t.Truncated().Instant() {
      StemInjective(Stem(e.path), FormatStem(t));
    }
  }

  lemma ListedPaths(c: Codecs, device: string, files: Files, es: seq<Entry>, e: Entry)
    requires Consistent(c, device, files, es) && e in es
    ensures e.path in BackupNames(files) && EntryOf(c, device, files, e.path) == Ok(e)
  {
    ListingIsDistinct(c, device, files, es);
  }

  /** A changed configuration that is not older than any stored one leaves every earlier
      backup as it was and listed as it was exactly when it is from a later second. */
  lemma SaveKeepsAllExactly(c: Codecs, device: string, transport: string, files: Files, es: seq<Entry>, a: Artifact,
                            compress: bool)
    requires c.Lawful() && a.fetchedAt.Valid() && Consistent(c, device, files, es)
    requires forall e <- es :: e.Time() <= SnapOf(c, a).at
    requires !Unchanged(es, c.DedupHash(a.content))
    ensures (forall e <- es :: Held(c, device, files, Written(c, device, transport, files, a, compress), e)) <==>
            (forall e <- es :: e.Time() < SnapOf(c, a).at)
  {
    hide Classify, FormatStem, ParseStem, EntryOf, DateTime.Instant, Entry.Time, Written, IsListing, Truthful;
    hide DistinctStems, NoOrphans;
    ConsistentListing(c, device, files, es);
    if forall e <- es :: e.Time() < SnapOf(c, a).at {
      forall n <- BackupNames(files) ensures Stem(n) != FormatStem(a.fetchedAt) {
        var e := ListedEntry(c, device, files, es, n);
        SameTimeIsSameStem(c, device, files, es, e, a.fetchedAt);
      }
      NewStemKeepsAll(c, device, transport, files, es, a, compress);
    } else {
      var e :| e in es && e.Time() == SnapOf(c, a).at;
      NewestOfAscending(es, e);
      SameTimeIsSameStem(c, device, files, es, e, a.fetchedAt);
      var files' := Written(c, device, transport, files, a, compress);
      var conf := ConfName(FormatStem(a.fetchedAt), compress);
      UsedStem(c, device, transport, files, es, a, compress, e.path, files', conf);
      assert !Held(c, device, files, files', e);
    }
  }

  lemma NewestOfAscending(es: seq<Entry>, e: Entry)
    requires Ascending(es) && e in es && forall x <- es :: x.Time() <= e.Time()
    ensures e == es[|es| - 1]
  {
    hide Entry.Time;
    assert es[|es| - 1] in es;
  }
}
