/** One device's backup directory: configuration files, their sidecars, and the marker
    of the last success. */
module Storage {
  import opened Wrappers
  import opened Utf8
  import opened Text
  import opened Clock
  import Normalize

  type Hash = string

  datatype Artifact = Artifact(
    content: Bytes, hostname: string, firmware: Option<string>, serial: Option<string>, fetchedAt: DateTime)

  datatype Metadata = Metadata(
    device: string, hostname: string, fetchedAt: DateTime, sizeBytes: nat, sha256: Hash, rawSha256: Option<Hash>,
    firmware: Option<string>, serial: Option<string>, transport: string, compressed: bool)

  /** The libraries the program calls: SHA-256, gzip, JSON, and RFC 3339 time text. */
  datatype Codecs = Codecs(
    sha256: Bytes -> Hash,
    gzip: Bytes -> Bytes,
    gunzip: Bytes -> Option<Bytes>,
    encodeMeta: Metadata -> Bytes,
    decodeMeta: Bytes -> Option<Metadata>,
    encodeTime: int -> Bytes,
    decodeTime: Bytes -> Option<int>)
  {
    ghost predicate Lawful() {
      && (forall b: Bytes :: gunzip(gzip(b)) == Some(b))
      && (forall m: Metadata :: decodeMeta(encodeMeta(m)) == Some(m))
      && (forall t: int :: decodeTime(encodeTime(t)) == Some(t))
    }

    ghost predicate CollisionFree() {
      forall a: Bytes, b: Bytes :: sha256(a) == sha256(b) ==> a == b
    }

    /** The hash that decides whether a configuration changed. */
    function DedupHash(content: Bytes): Hash {
      sha256(Normalize.Normalized(content))
    }
  }

  datatype StorageError = InvalidFilename(stem: string) | Json | Io(path: string)

  datatype Entry = Entry(device: string, path: string, size: nat, createdAt: DateTime, sha256: Hash) {
    function Time(): int {
      createdAt.Instant()
    }
  }

  datatype SaveOutcome = SaveOutcome(changed: bool, path: string, sha256: Hash)

  type Files = map<string, Bytes>

  // ----- File names -----

  const PLAIN: string := ".conf"
  const COMPRESSED: string := ".conf.gz"
  const SIDECAR: string := ".json"
  const MARKER: string := ".last_success"

  function ConfName(stem: string, compress: bool): string {
    stem + if compress then COMPRESSED else PLAIN
  }

  function MetaName(stem: string): string {
    stem + SIDECAR
  }

  /** The stem of a backup file and whether it is compressed; nothing for other files. */
  function Classify(name: string): Option<(string, bool)> {
    match StripSuffix(name, COMPRESSED)
    case Some(stem) => Some((stem, true))
    case None =>
      match StripSuffix(name, PLAIN)
      case Some(stem) => Some((stem, false))
      case None => None
  }

  /** A file name without its last extension, as `Path::file_stem`. */
  function FileStem(name: string): string {
    var k := LastDot(name, |name|);
    if k == 0 then name else name[..k]
  }

  function LastDot(name: string, n: nat): (k: nat)
    requires n <= |name|
    ensures k <= n
  {
    if n == 0 then 0 else if name[n - 1] == '.' then n - 1 else LastDot(name, n - 1)
  }

  /** Where listing and deletion look for a backup's sidecar. */
  function SidecarPathFor(name: string): string {
    match Classify(name)
    case Some((stem, _)) => MetaName(stem)
    case None => MetaName(FileStem(name))
  }

  /** Where the mirror step looks for it. */
  function SidecarFor(name: string): Option<string> {
    match StripSuffix(name, COMPRESSED)
    case Some(stem) => Some(MetaName(stem))
    case None =>
      match StripSuffix(name, PLAIN)
      case Some(stem) => Some(MetaName(stem))
      case None => None
  }

  // ----- Listing -----

  predicate IsBackup(name: string) {
    Classify(name).Some?
  }

  function EntryOf(c: Codecs, device: string, files: Files, name: string): Result<Entry, StorageError>
    requires name in files && IsBackup(name)
  {
    var (stem, compressed) := Classify(name).value;
    match ParseStem(stem)
    case None => Err(InvalidFilename(stem))
    case Some(at) =>
      var sidecar := SidecarPathFor(name);
      if sidecar in files then
        match c.decodeMeta(files[sidecar])
        case None => Err(Json)
        case Some(meta) => Ok(Entry(device, name, |files[name]|, at, meta.sha256))
      else
        var hash := if compressed then c.sha256(files[name]) else c.DedupHash(files[name]);
        Ok(Entry(device, name, |files[name]|, at, hash))
  }

  function BackupNames(files: Files): set<string> {
    set name <- files | IsBackup(name)
  }

  ghost predicate Readable(c: Codecs, device: string, files: Files) {
    forall name <- BackupNames(files) :: EntryOf(c, device, files, name).Ok?
  }

  ghost function EntriesOf(c: Codecs, device: string, files: Files, names: set<string>): set<Entry>
    requires names <= BackupNames(files)
  {
    set name <- names | EntryOf(c, device, files, name).Ok? :: EntryOf(c, device, files, name).value
  }

  predicate InOrder(a: Entry, b: Entry, newestFirst: bool) {
    if newestFirst then b.Time() <= a.Time() else a.Time() <= b.Time()
  }

  ghost predicate Sorted(es: seq<Entry>, newestFirst: bool) {
    forall i, j :: 0 <= i < j < |es| ==> InOrder(es[i], es[j], newestFirst)
  }

  /** `es` lists the directory, oldest first; equal times may come in any order. */
  ghost predicate IsListing(c: Codecs, device: string, files: Files, es: seq<Entry>) {
    && Readable(c, device, files)
    && multiset(es) == multiset(EntriesOf(c, device, files, BackupNames(files)))
    && Sorted(es, false)
  }

  /** A stable sort by time. */
  function Insert(e: Entry, es: seq<Entry>, newestFirst: bool): (r: seq<Entry>)
    ensures multiset(r) == multiset(es) + multiset{e}
  {
    if es == [] || InOrder(e, es[0], newestFirst) then [e] + es
    else
      var r := Insert(e, es[1..], newestFirst);
      assert es == [es[0]] + es[1..];
      [es[0]] + r
  }

  function SortByTime(es: seq<Entry>, newestFirst: bool): (r: seq<Entry>)
    ensures multiset(r) == multiset(es)
  {
    if es == [] then []
    else
      assert es == [es[0]] + es[1..];
      Insert(es[0], SortByTime(es[1..], newestFirst), newestFirst)
  }

  lemma {:induction false} InsertSorted(e: Entry, es: seq<Entry>, newestFirst: bool)
    requires Sorted(es, newestFirst)
    ensures Sorted(Insert(e, es, newestFirst), newestFirst)
  {
    if es != [] && !InOrder(e, es[0], newestFirst) {
      InsertSorted(e, es[1..], newestFirst);
      var r := Insert(e, es[1..], newestFirst);
      forall j | 0 <= j < |r| ensures InOrder(es[0], r[j], newestFirst) {
        assert r[j] in multiset(r);
        assert r[j] == e || r[j] in es[1..];
      }
    }
  }

  lemma {:induction false} SortIsSorted(es: seq<Entry>, newestFirst: bool)
    ensures Sorted(SortByTime(es, newestFirst), newestFirst)
  {
    if es != [] {
      SortIsSorted(es[1..], newestFirst);
      InsertSorted(es[0], SortByTime(es[1..], newestFirst), newestFirst);
    }
  }

  // ----- Retention -----

  const U32: int := 0x1_0000_0000

  function Cutoff(days: nat, now: int): int {
    now - days * DAY
  }

  /** The backups retention removes, given all of them newest first: those past the first
      `minCopies` positions that are older than the cutoff. Positions are 32-bit. */
  function VictimsFrom(es: seq<Entry>, minCopies: nat, cutoff: int, index: nat): seq<Entry> {
    if es == [] then []
    else
      var rest := VictimsFrom(es[1..], minCopies, cutoff, index + 1);
      if index % U32 >= minCopies && es[0].Time() < cutoff then [es[0]] + rest else rest
  }

  function Victims(es: seq<Entry>, days: nat, minCopies: nat, now: int): seq<Entry> {
    VictimsFrom(SortByTime(es, true), minCopies, Cutoff(days, now), 0)
  }

  method PickVictims(entries: seq<Entry>, days: nat, minCopies: nat, now: int) returns (victims: seq<Entry>)
    ensures victims == Victims(entries, days, minCopies, now)
  {
    var sorted := SortByTime(entries, true);
    var cutoff := Cutoff(days, now);
    victims := [];
    for index := 0 to |sorted|
      invariant victims + VictimsFrom(sorted[index..], minCopies, cutoff, index) ==
        Victims(entries, days, minCopies, now)
    {
      assert sorted[index..][1..] == sorted[index + 1..];
      if index % U32 >= minCopies && sorted[index].Time() < cutoff {
        victims := victims + [sorted[index]];
      }
    }
  }

  /** What deleting backups one by one leaves, and whether every file was there. */
  function DeleteAll(files: Files, victims: seq<Entry>): (Files, bool) {
    if victims == [] then (files, true)
    else if victims[0].path !in files then (files, false)
    else DeleteAll(files - {victims[0].path} - {SidecarPathFor(victims[0].path)}, victims[1..])
  }

  function Without(files: Files, victims: seq<Entry>): Files {
    files - (set e <- victims :: e.path) - (set e <- victims :: SidecarPathFor(e.path))
  }

  // ----- The steps on the directory -----

  function Body(c: Codecs, content: Bytes, compress: bool): Bytes {
    if compress then c.gzip(content) else content
  }

  function MetaOf(c: Codecs, device: string, transport: string, a: Artifact, compress: bool): Metadata {
    Metadata(device, a.hostname, a.fetchedAt, |a.content|, c.DedupHash(a.content), Some(c.sha256(a.content)),
             a.firmware, a.serial, transport, compress)
  }

  /** The directory after the configuration itself is written, before its sidecar. */
  function HalfWritten(c: Codecs, files: Files, a: Artifact, compress: bool): Files
    requires a.fetchedAt.Valid()
  {
    files[ConfName(FormatStem(a.fetchedAt), compress) := Body(c, a.content, compress)]
  }

  function Written(c: Codecs, device: string, transport: string, files: Files, a: Artifact, compress: bool): Files
    requires a.fetchedAt.Valid()
  {
    var meta := c.encodeMeta(MetaOf(c, device, transport, a, compress));
    HalfWritten(c, files, a, compress)[MetaName(FormatStem(a.fetchedAt)) := meta]
  }

  predicate Unchanged(es: seq<Entry>, hash: Hash) {
    es != [] && es[|es| - 1].sha256 == hash
  }

  /** Saving an artifact takes `files` to `files'` with the given outcome. */
  ghost predicate SaveStep(c: Codecs, device: string, transport: string, files: Files, a: Artifact, compress: bool,
                           files': Files, out: Result<SaveOutcome, StorageError>)
    requires a.fetchedAt.Valid()
  {
    if !Readable(c, device, files) then out.Err? && files' == files
    else exists es: seq<Entry> :: SaveFrom(c, device, transport, files, es, a, compress, files', out)
  }

  /** The same, given the listing the hash was compared with. */
  ghost predicate SaveFrom(c: Codecs, device: string, transport: string, files: Files, es: seq<Entry>, a: Artifact,
                           compress: bool, files': Files, out: Result<SaveOutcome, StorageError>)
    requires a.fetchedAt.Valid()
  {
    var hash := c.DedupHash(a.content);
    && IsListing(c, device, files, es)
    && if Unchanged(es, hash) then
        && files' == files
        && exists again: seq<Entry> :: IsNewestOf(c, device, files, again, out, hash)
      else
        && files' == Written(c, device, transport, files, a, compress)
        && out == Ok(SaveOutcome(true, ConfName(FormatStem(a.fetchedAt), compress), hash))
  }

  /** The reported path is the newest of a listing. */
  ghost predicate IsNewestOf(c: Codecs, device: string, files: Files, es: seq<Entry>,
                             out: Result<SaveOutcome, StorageError>, hash: Hash)
  {
    IsListing(c, device, files, es) && es != [] && out == Ok(SaveOutcome(false, es[|es| - 1].path, hash))
  }

  ghost predicate RetentionStep(c: Codecs, device: string, files: Files, days: nat, minCopies: nat, now: int,
                                files': Files, out: Result<nat, StorageError>)
  {
    if !Readable(c, device, files) then out.Err? && files' == files
    else exists es: seq<Entry> :: RetentionFrom(c, device, files, es, days, minCopies, now, files', out)
  }

  ghost predicate RetentionFrom(c: Codecs, device: string, files: Files, es: seq<Entry>, days: nat, minCopies: nat,
                                now: int, files': Files, out: Result<nat, StorageError>)
  {
    && IsListing(c, device, files, es)
    && files' == Without(files, Victims(es, days, minCopies, now))
    && out == Ok(|Victims(es, days, minCopies, now)|)
  }

  function NewestHash(es: seq<Entry>): Option<Hash> {
    if es == [] then None else Some(es[|es| - 1].sha256)
  }

  function LastSuccessAt(c: Codecs, files: Files): Option<int> {
    if MARKER in files then c.decodeTime(files[MARKER]) else None
  }

  class DeviceDir {
    const device: string
    const codecs: Codecs
    var files: Files

    constructor (device: string, codecs: Codecs)
      ensures this.device == device && this.codecs == codecs && files == map[]
    {
      this.device, this.codecs, this.files := device, codecs, map[];
    }

    /** Lists the backups; the directory hands its files out in any order. */
    method ListEntries() returns (r: Result<seq<Entry>, StorageError>)
      ensures r.Ok? <==> Readable(codecs, device, files)
      ensures r.Ok? ==> IsListing(codecs, device, files, r.value)
      ensures r.Err? ==> exists name <- BackupNames(files) :: EntryOf(codecs, device, files, name) == Err(r.error)
    {
      hide EntryOf, IsBackup, EntriesOf, SortByTime;
      NoEntries(codecs, device, files);
      var entries: seq<Entry> := [];
      var todo := files.Keys;
      ghost var seen: set<string> := {};
      while todo != {}
        invariant todo <= files.Keys
        invariant seen == BackupNames(files) - todo
        invariant forall name <- seen :: EntryOf(codecs, device, files, name).Ok?
        invariant multiset(entries) == multiset(EntriesOf(codecs, device, files, seen))
        decreases todo
      {
        var name :| name in todo;
        todo := todo - {name};
        if IsBackup(name) {
          var e := EntryOf(codecs, device, files, name);
          if e.Err? {
            return Err(e.error);
          }
          OneMoreEntry(codecs, device, files, seen, name);
          entries := entries + [e.value];
          seen := seen + {name};
        }
      }
      assert seen == BackupNames(files);
      SortIsSorted(entries, false);
      return Ok(SortByTime(entries, false));
    }

    method LatestHash() returns (r: Result<Option<Hash>, StorageError>)
      ensures r.Ok? <==> Readable(codecs, device, files)
      ensures r.Ok? ==> exists es: seq<Entry> :: IsListing(codecs, device, files, es) && r.value == NewestHash(es)
    {
      var entries := ListEntries();
      if entries.Err? {
        return Err(entries.error);
      }
      var es := entries.value;
      return Ok(NewestHash(es));
    }

    method SaveBackup(transport: string, a: Artifact, compress: bool) returns (out: Result<SaveOutcome, StorageError>)
      requires a.fetchedAt.Valid()
      modifies this
      ensures SaveStep(codecs, device, transport, old(files), a, compress, files, out)
    {
      hide Readable, IsListing, FormatStem, ConfName, MetaName;
      var hash := codecs.DedupHash(a.content);
      var previous := LatestHash();
      if previous.Err? {
        return Err(previous.error);
      }
      ghost var first: seq<Entry> :| IsListing(codecs, device, files, first) && previous.value == NewestHash(first);
      if previous.value == Some(hash) {
        var entries := ListEntries();
        var es := entries.value;
        SameLength(codecs, device, files, first, es);
        out := Ok(SaveOutcome(false, es[|es| - 1].path, hash));
        assert IsNewestOf(codecs, device, files, es, out, hash);
        assert SaveFrom(codecs, device, transport, files, first, a, compress, files, out);
        return;
      }
      var stem := FormatStem(a.fetchedAt);
      var conf, meta := ConfName(stem, compress), MetaName(stem);
      if compress {
        files := files[conf := codecs.gzip(a.content)];
      } else {
        files := files[conf := a.content];
      }
      files := files[meta := codecs.encodeMeta(MetaOf(codecs, device, transport, a, compress))];
      out := Ok(SaveOutcome(true, conf, hash));
      assert SaveFrom(codecs, device, transport, old(files), first, a, compress, files, out);
    }

    method DeleteVictims(victims: seq<Entry>) returns (out: Result<nat, StorageError>)
      modifies this
      ensures files == DeleteAll(old(files), victims).0
      ensures out.Ok? == DeleteAll(old(files), victims).1
      ensures out.Ok? ==> out.value == |victims|
    {
      for k := 0 to |victims|
        invariant DeleteAll(files, victims[k..]) == DeleteAll(old(files), victims)
      {
        var conf := victims[k].path;
        var sidecar := SidecarPathFor(conf);
        assert victims[k..][1..] == victims[k + 1..];
        if conf !in files {
          return Err(Io(conf));
        }
        var rest := files - {conf};
        assert rest - {sidecar} == files - {conf} - {sidecar};
        files := rest;
        if sidecar in files {
          files := files - {sidecar};
        }
        assert sidecar !in rest ==> rest - {sidecar} == rest;
      }
      return Ok(|victims|);
    }

    method ApplyRetention(days: nat, minCopies: nat, now: int) returns (out: Result<nat, StorageError>)
      modifies this
      ensures RetentionStep(codecs, device, old(files), days, minCopies, now, files, out)
    {
      var entries := ListEntries();
      if entries.Err? {
        return Err(entries.error);
      }
      var victims := PickVictims(entries.value, days, minCopies, now);
      VictimsAreListed(codecs, device, files, entries.value, days, minCopies, now);
      DeletesAll(files, victims);
      out := DeleteVictims(victims);
      assert RetentionFrom(codecs, device, old(files), entries.value, days, minCopies, now, files, out);
    }

    /** What retention would delete, deleting nothing. */
    method PlanRetention(days: nat, minCopies: nat, now: int) returns (out: Result<seq<Entry>, StorageError>)
      ensures out.Ok? <==> Readable(codecs, device, files)
      ensures out.Ok? ==>
              exists es: seq<Entry> ::
                IsListing(codecs, device, files, es) && out.value == Victims(es, days, minCopies, now)
    {
      var entries := ListEntries();
      if entries.Err? {
        return Err(entries.error);
      }
      var victims := PickVictims(entries.value, days, minCopies, now);
      return Ok(victims);
    }

    method RecordSuccess(at: int)
      modifies this
      ensures files == old(files)[MARKER := codecs.encodeTime(at)]
    {
      files := files[MARKER := codecs.encodeTime(at)];
    }
  }

  // ----- What the methods above need -----

  lemma NoEntries(c: Codecs, device: string, files: Files)
    ensures EntriesOf(c, device, files, {}) == {}
  {
  }

  lemma PathOfEntry(c: Codecs, device: string, files: Files)
    ensures forall name <- BackupNames(files) ::
      EntryOf(c, device, files, name).Ok? ==> EntryOf(c, device, files, name).value.path == name
  {
  }

  lemma OneMoreEntry(c: Codecs, device: string, files: Files, seen: set<string>, name: string)
    requires seen <= BackupNames(files) && name in BackupNames(files) && name !in seen
    requires EntryOf(c, device, files, name).Ok?
    ensures multiset(EntriesOf(c, device, files, seen + {name}))
         == multiset(EntriesOf(c, device, files, seen)) + multiset{EntryOf(c, device, files, name).value}
  {
    PathOfEntry(c, device, files);
    hide EntryOf, IsBackup;
    var e := EntryOf(c, device, files, name).value;
    var s := EntriesOf(c, device, files, seen);
    assert EntriesOf(c, device, files, seen + {name}) == s + {e};
    assert forall x <- s :: x.path in seen;
    assert e !in s;
  }

  lemma SameLength(c: Codecs, device: string, files: Files, es: seq<Entry>, es': seq<Entry>)
    requires IsListing(c, device, files, es) && IsListing(c, device, files, es')
    ensures |es| == |es'|
  {
    assert |es| == |multiset(es)| && |es'| == |multiset(es')|;
  }

  ghost predicate DistinctPaths(es: seq<Entry>) {
    forall i, j :: 0 <= i < j < |es| ==> es[i].path != es[j].path
  }

  lemma {:induction false} VictimsAreOrdered(es: seq<Entry>, minCopies: nat, cutoff: int, index: nat)
    requires DistinctPaths(es)
    ensures var vs := VictimsFrom(es, minCopies, cutoff, index);
            DistinctPaths(vs) && forall v <- vs :: v in es
  {
    if es != [] {
      VictimsAreOrdered(es[1..], minCopies, cutoff, index + 1);
      var rest := VictimsFrom(es[1..], minCopies, cutoff, index + 1);
      forall v <- rest ensures v in es && v.path != es[0].path {
        var j :| 0 <= j < |es[1..]| && es[1..][j] == v;
        assert es[j + 1] == v;
      }
    }
  }

  /** A listing has every backup file once. */
  lemma ListingIsDistinct(c: Codecs, device: string, files: Files, es: seq<Entry>)
    requires Readable(c, device, files)
    requires multiset(es) == multiset(EntriesOf(c, device, files, BackupNames(files)))
    ensures DistinctPaths(es)
    ensures forall e <- es :: e.path in BackupNames(files) && EntryOf(c, device, files, e.path) == Ok(e)
  {
    PathOfEntry(c, device, files);
    hide EntryOf, IsBackup;
    var s := EntriesOf(c, device, files, BackupNames(files));
    forall e <- es ensures e in s {
      assert e in multiset(es);
    }
    forall i, j | 0 <= i < j < |es| ensures es[i].path != es[j].path {
      if es[i].path == es[j].path {
        assert es[i] in s && es[j] in s;
        assert es[i] == es[j];
        TwiceInMultiset(es, i, j);
        assert false;
      }
    }
  }

  lemma TwiceInMultiset(es: seq<Entry>, i: nat, j: nat)
    requires i < j < |es| && es[i] == es[j]
    ensures multiset(es)[es[i]] >= 2
  {
    assert es == es[..j] + [es[j]] + es[j + 1..];
    assert es[..j][i] in multiset(es[..j]);
  }

  lemma VictimsAreListed(c: Codecs, device: string, files: Files, es: seq<Entry>, days: nat, minCopies: nat, now: int)
    requires IsListing(c, device, files, es)
    ensures var vs := Victims(es, days, minCopies, now);
            DistinctPaths(vs) && forall v <- vs :: v.path in BackupNames(files)
  {
    var sorted := SortByTime(es, true);
    ListingIsDistinct(c, device, files, sorted);
    VictimsAreOrdered(sorted, minCopies, Cutoff(days, now), 0);
  }

  lemma SidecarIsNoBackup(stem: string)
    ensures !IsBackup(MetaName(stem)) && MetaName(stem) != MARKER && !IsBackup(MARKER)
  {
    var n := MetaName(stem);
    assert n[|n| - 1] == 'n' && MARKER[|MARKER| - 1] == 's';
    assert forall t: string :: var u := t + COMPRESSED; u[|u| - 1] == 'z';
    assert forall t: string :: var u := t + PLAIN; u[|u| - 1] == 'f';
  }

  lemma {:induction false} DeletesAll(files: Files, victims: seq<Entry>)
    requires DistinctPaths(victims) && forall v <- victims :: v.path in BackupNames(files)
    ensures DeleteAll(files, victims) == (Without(files, victims), true)
    decreases |victims|
  {
    hide Classify;
    if victims == [] {
      assert Without(files, victims) == files;
    } else {
      var v, rest := victims[0], victims[1..];
      BackupSidecar(v.path);
      var files' := files - {v.path} - {SidecarPathFor(v.path)};
      assert forall w <- rest :: w.path in BackupNames(files');
      DeletesAll(files', rest);
      WithoutFirst(files, v, rest, victims);
    }
  }

  lemma BackupSidecar(name: string)
    requires IsBackup(name)
    ensures !IsBackup(SidecarPathFor(name)) && SidecarPathFor(name) != MARKER && name != MARKER
  {
    SidecarIsNoBackup(Classify(name).value.0);
  }

  lemma WithoutFirst(files: Files, v: Entry, rest: seq<Entry>, victims: seq<Entry>)
    requires victims != [] && v == victims[0] && rest == victims[1..]
    ensures Without(files - {v.path} - {SidecarPathFor(v.path)}, rest) == Without(files, victims)
  {
    hide SidecarPathFor;
    assert victims == [v] + rest;
    assert (set e <- victims :: e.path) == {v.path} + (set e <- rest :: e.path);
    assert (set e <- victims :: SidecarPathFor(e.path)) ==
      {SidecarPathFor(v.path)} + (set e <- rest :: SidecarPathFor(e.path));
  }
}
