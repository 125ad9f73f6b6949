/** The scheduler's job table and its hot reload. */
module Scheduler {
  import opened Wrappers
  import opened Config

  type Id = nat

  /** A job keeps the configuration it was installed with. */
  datatype Job = Job(device: string, config: Config)

  /** The backend's live jobs, the ids the daemon tracks, the shared configuration, and the
      first id never handed out. */
  datatype Table = Table(live: map<Id, Job>, ids: seq<Id>, shared: Config, next: Id)

  /** How the backend answers during one reload: which removals succeed, and which of the
      new jobs (by position) it creates and accepts. */
  datatype Backend = Backend(removes: Id -> bool, accepts: nat -> bool)

  /** How many jobs are installed before the first one fails. */
  function AcceptedFrom(b: Backend, n: nat, k: nat): (r: nat)
    requires k <= n
    ensures k <= r <= n
    ensures forall i :: k <= i < r ==> b.accepts(i)
    ensures r < n ==> !b.accepts(r)
    decreases n - k
  {
    if k == n || !b.accepts(k) then k else AcceptedFrom(b, n, k + 1)
  }

  function Accepted(b: Backend, n: nat): (r: nat)
    ensures r <= n
  {
    AcceptedFrom(b, n, 0)
  }

  function NewIds(next: Id, k: nat): (r: seq<Id>)
    ensures |r| == k && forall i :: 0 <= i < k ==> r[i] == next + i
  {
    seq(k, i requires 0 <= i < k => next + i)
  }

  function NewJobs(next: Id, k: nat, cfg: Config): map<Id, Job>
    requires k <= |cfg.devices|
  {
    map id <- NewIds(next, k) :: Job(cfg.devices[id - next].name, cfg)
  }

  function Removed(live: map<Id, Job>, ids: seq<Id>, b: Backend): map<Id, Job> {
    live - (set id <- ids | b.removes(id))
  }

  /** Installing stops at the first failure, and then forgets the ids it already has. */
  function Reloaded(t: Table, cfg: Config, b: Backend): Table {
    var k := Accepted(b, |cfg.devices|);
    Table(Removed(t.live, t.ids, b) + NewJobs(t.next, k, cfg),
          if k == |cfg.devices| then NewIds(t.next, k) else [],
          cfg, t.next + k)
  }

  lemma NoJobs(next: Id, cfg: Config)
    ensures NewIds(next, 0) == [] && NewJobs(next, 0, cfg) == map[]
  {
  }

  lemma OneMoreJob(next: Id, k: nat, cfg: Config)
    requires k < |cfg.devices|
    ensures NewIds(next, k + 1) == NewIds(next, k) + [next + k]
    ensures NewJobs(next, k + 1, cfg) == NewJobs(next, k, cfg)[next + k := Job(cfg.devices[k].name, cfg)]
  {
    assert NewIds(next, k + 1) == NewIds(next, k) + [next + k];
  }

  class JobScheduler {
    var live: map<Id, Job>
    var currentIds: seq<Id>
    var shared: Config
    var next: Id

    constructor (cfg: Config)
      ensures State() == Table(map[], [], cfg, 0)
    {
      live, currentIds, shared, next := map[], [], cfg, 0;
    }

    function State(): Table
      reads this
    {
      Table(live, currentIds, shared, next)
    }

    method InstallJobs(cfg: Config, b: Backend) returns (ids: Option<seq<Id>>)
      modifies this`live, this`next
      ensures var k := Accepted(b, |cfg.devices|);
              && live == old(live) + NewJobs(old(next), k, cfg) && next == old(next) + k
              && ids == if k == |cfg.devices| then Some(NewIds(old(next), k)) else None
    {
      hide NewIds, NewJobs;
      NoJobs(next, cfg);
      var installed: seq<Id> := [];
      for k := 0 to |cfg.devices|
        invariant AcceptedFrom(b, |cfg.devices|, k) == Accepted(b, |cfg.devices|)
        invariant live == old(live) + NewJobs(old(next), k, cfg) && next == old(next) + k
        invariant installed == NewIds(old(next), k)
      {
        if !b.accepts(k) {
          return None;
        }
        OneMoreJob(old(next), k, cfg);
        live := live[next := Job(cfg.devices[k].name, cfg)];
        installed := installed + [next];
        next := next + 1;
      }
      return Some(installed);
    }

    /** Swaps the shared configuration, drains the tracked ids, installs the new jobs. */
    method Reload(cfg: Config, b: Backend)
      modifies this
      ensures State() == Reloaded(old(State()), cfg, b)
    {
      shared := cfg;
      var draining := currentIds;
      currentIds := [];
      for k := 0 to |draining|
        invariant live == Removed(old(live), draining[..k], b)
        invariant currentIds == [] && next == old(next) && shared == cfg
      {
        assert draining[..k + 1] == draining[..k] + [draining[k]];
        if b.removes(draining[k]) {
          live := live - {draining[k]};
        }
      }
      assert draining[..|draining|] == draining;
      var ids := InstallJobs(cfg, b);
      if ids.Some? {
        currentIds := ids.value;
      }
    }
  }

  // ----- What reloads keep -----

  ghost predicate Fresh(t: Table) {
    (forall id <- t.live :: id < t.next) && forall id <- t.ids :: id < t.next
  }

  /** The daemon knows exactly the live jobs. */
  ghost predicate Tracked(t: Table) {
    t.live.Keys == set id <- t.ids
  }

  /** One live job per device of the shared configuration, each carrying it. */
  ghost predicate OneJobPerDevice(t: Table) {
    && |t.ids| == |t.shared.devices|
    && (forall i, j :: 0 <= i < j < |t.ids| ==> t.ids[i] != t.ids[j])
    && forall i :: 0 <= i < |t.ids| ==>
      t.ids[i] in t.live && t.live[t.ids[i]] == Job(t.shared.devices[i].name, t.shared)
  }

  ghost predicate RemovesAll(t: Table, b: Backend) {
    forall id <- t.ids :: b.removes(id)
  }

  lemma ReloadKeepsFresh(t: Table, cfg: Config, b: Backend)
    requires Fresh(t)
    ensures Fresh(Reloaded(t, cfg, b))
  {
  }

  /** What lives after one reload: of the old jobs, unchanged, those that were not tracked
      and those whose own removal failed; and one new job for each device before the first
      that is refused. */
  lemma ReloadedJobs(t: Table, cfg: Config, b: Backend) returns (k: nat)
    requires Fresh(t)
    ensures k <= |cfg.devices| && (forall i :: 0 <= i < k ==> b.accepts(i)) && (k < |cfg.devices| ==> !b.accepts(k))
    ensures var live := Reloaded(t, cfg, b).live;
            && (forall id <- t.live :: id in live <==> id !in t.ids || !b.removes(id))
            && (forall id <- t.live :: id in live ==> live[id] == t.live[id])
            && (forall id <- live :: id in t.live || t.next <= id < t.next + k)
            && forall id: Id :: t.next <= id < t.next + k ==>
                 id !in t.live && id in live && live[id] == Job(cfg.devices[id - t.next].name, cfg)
  {
    k := Accepted(b, |cfg.devices|);
    AcceptedExactly(b, |cfg.devices|);
    NewJobsExactly(t.next, k, cfg);
    hide NewJobs, NewIds, Accepted;
  }

  lemma NewJobsExactly(next: Id, k: nat, cfg: Config)
    requires k <= |cfg.devices|
    ensures forall id: Id :: id in NewJobs(next, k, cfg) <==> next <= id < next + k
    ensures forall id <- NewJobs(next, k, cfg) :: NewJobs(next, k, cfg)[id] == Job(cfg.devices[id - next].name, cfg)
  {
    hide NewJobs;
    NewJobsAreNew(next, k, cfg);
    forall id: Id | next <= id < next + k
      ensures id in NewJobs(next, k, cfg) && NewJobs(next, k, cfg)[id] == Job(cfg.devices[id - next].name, cfg)
    {
      NewJobAt(next, k, cfg, id - next);
    }
  }

  lemma AcceptedExactly(b: Backend, n: nat)
    ensures var k := Accepted(b, n);
            k <= n && (forall i :: 0 <= i < k ==> b.accepts(i)) && (k < n ==> !b.accepts(k))
  {
  }

  /** After one reload of a tracked table: the live jobs are again exactly the tracked ones
      if and only if every removal succeeded and installing failed for no device or for the
      very first; and they are one per device of the new configuration if and only if every
      removal and every installation succeeded. */
  lemma ReloadExactly(t: Table, cfg: Config, b: Backend)
    requires Fresh(t) && Tracked(t)
    ensures var t', k := Reloaded(t, cfg, b), Accepted(b, |cfg.devices|);
            && (Tracked(t') <==> RemovesAll(t, b) && (k == |cfg.devices| || k == 0))
            && (Tracked(t') && OneJobPerDevice(t') <==> RemovesAll(t, b) && k == |cfg.devices|)
  {
    var k := Accepted(b, |cfg.devices|);
    NewJobsAreNew(t.next, k, cfg);
    hide NewIds, NewJobs, Accepted;
    if RemovesAll(t, b) {
      NothingLeft(t, b);
      InstalledOnly(t, cfg, b);
    } else {
      var id :| id in t.ids && !b.removes(id);
      assert id in t.live && id in Removed(t.live, t.ids, b);
      assert id in Reloaded(t, cfg, b).live && id < t.next;
    }
  }

  lemma NewJobsAreNew(next: Id, k: nat, cfg: Config)
    requires k <= |cfg.devices|
    ensures NewJobs(next, k, cfg).Keys == set id <- NewIds(next, k)
    ensures forall id <- NewIds(next, k) :: id >= next
    ensures k > 0 ==> NewJobs(next, k, cfg).Keys != {}
  {
    if k > 0 {
      assert NewIds(next, k)[0] in NewJobs(next, k, cfg);
    }
  }

  lemma NewJobAt(next: Id, k: nat, cfg: Config, i: nat)
    requires i < k <= |cfg.devices|
    ensures NewIds(next, k)[i] in NewJobs(next, k, cfg)
    ensures NewJobs(next, k, cfg)[NewIds(next, k)[i]] == Job(cfg.devices[i].name, cfg)
  {
    assert NewIds(next, k)[i] in NewIds(next, k);
  }

  lemma NothingLeft(t: Table, b: Backend)
    requires Tracked(t) && RemovesAll(t, b)
    ensures Removed(t.live, t.ids, b) == map[]
  {
  }

  lemma InstalledOnly(t: Table, cfg: Config, b: Backend)
    requires Removed(t.live, t.ids, b) == map[]
    ensures var t', k := Reloaded(t, cfg, b), Accepted(b, |cfg.devices|);
            && (Tracked(t') <==> k == |cfg.devices| || k == 0)
            && (Tracked(t') && OneJobPerDevice(t') <==> k == |cfg.devices|)
  {
    var k := Accepted(b, |cfg.devices|);
    hide NewIds, NewJobs, Accepted, Removed;
    var t' := Reloaded(t, cfg, b);
    assert t'.live == NewJobs(t.next, k, cfg);
    NewJobsAreNew(t.next, k, cfg);
    if k == |cfg.devices| {
      AllInstalled(t', t.next, cfg);
    } else {
      hide OneJobPerDevice;
      NotAllInstalled(t');
      assert Tracked(t') <==> t'.live.Keys == {};
      if k == 0 { NoJobs(t.next, cfg); }
    }
  }

  lemma NotAllInstalled(t: Table)
    requires t.ids == [] && t.shared.devices != []
    ensures !OneJobPerDevice(t)
  {
  }

  lemma AllInstalled(t: Table, next: Id, cfg: Config)
    requires t.ids == NewIds(next, |cfg.devices|) && t.live == NewJobs(next, |cfg.devices|, cfg) && t.shared == cfg
    ensures OneJobPerDevice(t) && Tracked(t)
  {
    hide *;
    InstalledAreTracked(t, next, cfg);
    InstalledPerDevice(t, next, cfg);
  }

  lemma InstalledAreTracked(t: Table, next: Id, cfg: Config)
    requires t.ids == NewIds(next, |cfg.devices|) && t.live == NewJobs(next, |cfg.devices|, cfg)
    ensures Tracked(t)
  {
    hide NewIds, NewJobs;
    NewJobsAreNew(next, |cfg.devices|, cfg);
  }

  lemma InstalledPerDevice(t: Table, next: Id, cfg: Config)
    requires t.ids == NewIds(next, |cfg.devices|) && t.live == NewJobs(next, |cfg.devices|, cfg) && t.shared == cfg
    ensures OneJobPerDevice(t)
  {
    hide NewIds, NewJobs;
    forall i | 0 <= i < |t.ids|
      ensures t.ids[i] in t.live && t.live[t.ids[i]] == Job(cfg.devices[i].name, cfg)
    {
      NewJobAt(next, |cfg.devices|, cfg, i);
    }
  }

  /** A sequence of reloads, each with the backend's answers. */
  function AfterReloads(t: Table, reloads: seq<(Config, Backend)>): Table {
    if reloads == [] then t
    else
      var n := |reloads| - 1;
      Reloaded(AfterReloads(t, reloads[..n]), reloads[n].0, reloads[n].1)
  }

  ghost predicate AllSucceed(t: Table, reloads: seq<(Config, Backend)>) {
    forall n :: 0 <= n < |reloads| ==>
      && RemovesAll(AfterReloads(t, reloads[..n]), reloads[n].1)
      && Accepted(reloads[n].1, |reloads[n].0.devices|) == |reloads[n].0.devices|
  }

  lemma ReloadShares(t: Table, cfg: Config, b: Backend)
    ensures Reloaded(t, cfg, b).shared == cfg
  {
  }

  /** However often the configuration is loaded anew, the first time included, as long as
      every removal and installation succeeds the live jobs are the tracked ones, one per
      device of the newest configuration. */
  lemma {:induction false} ReloadsKeepJobs(t: Table, reloads: seq<(Config, Backend)>)
    requires Fresh(t) && Tracked(t) && AllSucceed(t, reloads)
    ensures var t' := AfterReloads(t, reloads);
            && Fresh(t') && Tracked(t')
            && (reloads != [] ==> OneJobPerDevice(t') && t'.shared == reloads[|reloads| - 1].0)
    decreases |reloads|
  {
    hide Reloaded, Tracked, OneJobPerDevice, Fresh, RemovesAll, Accepted;
    if reloads != [] {
      var n := |reloads| - 1;
      var before := reloads[..n];
      SucceedBefore(t, reloads);
      ReloadsKeepJobs(t, before);
      var (cfg, b) := reloads[n];
      ReloadShares(AfterReloads(t, before), cfg, b);
      ReloadKeepsFresh(AfterReloads(t, before), cfg, b);
      ReloadExactly(AfterReloads(t, before), cfg, b);
    }
  }

  lemma SucceedBefore(t: Table, reloads: seq<(Config, Backend)>)
    requires reloads != [] && AllSucceed(t, reloads)
    ensures AllSucceed(t, reloads[..|reloads| - 1])
  {
    hide AfterReloads, RemovesAll, Accepted;
    var n := |reloads| - 1;
    var before := reloads[..n];
    assert forall i :: 0 <= i < n ==> before[i] == reloads[i] && before[..i] == reloads[..i];
  }

  /** A live job the daemon does not track stays live, and untracked, through every later
      reload. */
  lemma {:induction false} LeakedJobsStay(t: Table, reloads: seq<(Config, Backend)>, id: Id)
    requires Fresh(t) && id in t.live && id !in t.ids
    ensures var t' := AfterReloads(t, reloads);
            Fresh(t') && id in t'.live && t'.live[id] == t.live[id] && id !in t'.ids
    decreases |reloads|
  {
    if reloads != [] {
      LeakedJobsStay(t, reloads[..|reloads| - 1], id);
    }
  }

  /** Where such jobs come from: when installing fails part way, every job it had installed
      is live with its configuration, tracked by nobody, and so for good. */
  lemma FailedInstallLeaks(t: Table, cfg: Config, b: Backend, later: seq<(Config, Backend)>, i: nat)
    requires Fresh(t)
    requires 0 <= i < Accepted(b, |cfg.devices|) < |cfg.devices|
    ensures var id, t' := t.next + i, AfterReloads(Reloaded(t, cfg, b), later);
            id in t'.live && t'.live[id] == Job(cfg.devices[i].name, cfg) && id !in t'.ids
  {
    var k := Accepted(b, |cfg.devices|);
    NewJobAt(t.next, k, cfg, i);
    ReloadKeepsFresh(t, cfg, b);
    hide NewJobs, Accepted, AfterReloads, Fresh;
    LeakedJobsStay(Reloaded(t, cfg, b), later, t.next + i);
  }

  /** The other source: a job whose removal failed. */
  lemma FailedRemovalLeaks(t: Table, cfg: Config, b: Backend, later: seq<(Config, Backend)>, id: Id)
    requires Fresh(t) && id in t.live && id in t.ids && !b.removes(id)
    ensures var t' := AfterReloads(Reloaded(t, cfg, b), later);
            id in t'.live && t'.live[id] == t.live[id] && id !in t'.ids
  {
    var k := ReloadedJobs(t, cfg, b);
    ReloadKeepsFresh(t, cfg, b);
    hide NewJobs, Accepted, AfterReloads, Fresh, Removed;
    LeakedJobsStay(Reloaded(t, cfg, b), later, id);
  }

  /** With a validated configuration every live job runs the device it was installed for. */
  lemma JobRunsItsDevice(t: Table, i: nat)
    requires OneJobPerDevice(t) && Sound(t.shared.devices) && i < |t.ids|
    ensures var job := t.live[t.ids[i]];
            FindDevice(job.config.devices, job.device) == Some(t.shared.devices[i])
  {
    LookupFindsItself(t.shared.devices);
  }
}
