/** The watchdog and the store together: what an alert says about the runs that happened. */
module Monitoring {
  import opened Wrappers
  import opened Storage
  import opened Backup
  import opened BackupLaws
  import opened Watchdog
  import opened WatchdogLaws

  /** The daemon's life: events on the devices' directories, and checks of the configured
      devices. */
  datatype Happening =
    | Stored(device: string, ev: Event)
    | Checked(devices: seq<string>, staleAfter: int, now: int)

  /** What happened in one device's directory. */
  function StoreEvents(w: seq<Happening>, d: string): seq<Event> {
    if w == [] then []
    else
      var h := w[|w| - 1];
      StoreEvents(w[..|w| - 1], d) + if h.Stored? && h.device == d then [h.ev] else []
  }

  ghost predicate Plausible(w: seq<Happening>) {
    forall h <- w :: if h.Stored? then h.ev.Valid() else Distinct(h.devices)
  }

  type Dirs = map<string, Files>

  /** A directory that does not exist yet is empty. */
  function DirOf(dirs: Dirs, d: string): Files {
    if d in dirs then dirs[d] else map[]
  }

  /** The successes a check reads from the markers. */
  function Recorded(c: Codecs, dirs: Dirs, devices: seq<string>): map<string, int> {
    map d <- devices | LastSuccessAt(c, DirOf(dirs, d)).Some? :: LastSuccessAt(c, DirOf(dirs, d)).value
  }

  /** `w` may lead to these directories, this shared map of alert states and these notices;
      `transport` names the transport of each device. */
  ghost predicate World(c: Codecs, transport: string -> string, w: seq<Happening>, dirs: Dirs,
                        states: map<string, AlertState>, notices: seq<Notice>)
    requires Plausible(w)
  {
    if w == [] then dirs == map[] && states == map[] && notices == []
    else
      var before := w[..|w| - 1];
      match w[|w| - 1]
      case Stored(d, ev) =>
        exists dirs0: Dirs ::
          World(c, transport, before, dirs0, states, notices) && DirStep(c, transport, dirs0, d, ev, dirs)
      case Checked(devices, staleAfter, now) =>
        exists states0: map<string, AlertState>, notices0: seq<Notice> ::
          && World(c, transport, before, dirs, states0, notices0)
          && CheckStepOn(c, dirs, states0, notices0, devices, staleAfter, now, states, notices)
  }

  ghost predicate DirStep(c: Codecs, transport: string -> string, dirs0: Dirs, d: string, ev: Event, dirs: Dirs)
    requires ev.Valid()
  {
    && d in dirs && dirs == dirs0[d := dirs[d]]
    && EventStep(c, d, transport(d), DirOf(dirs0, d), ev, dirs[d])
  }

  /** One `check_once` over the shared map. */
  ghost predicate CheckStepOn(c: Codecs, dirs: Dirs, states0: map<string, AlertState>, notices0: seq<Notice>,
                              devices: seq<string>, staleAfter: int, now: int,
                              states: map<string, AlertState>, notices: seq<Notice>)
  {
    var (after, sent) := Check(states0, devices, Recorded(c, dirs, devices), staleAfter, now);
    states == after && notices == notices0 + sent
  }

  /** When the last completed run was done. */
  function LastDone(events: seq<Event>): Option<int> {
    if events == [] then None
    else if events[|events| - 1].Run? then Some(events[|events| - 1].doneAt)
    else LastDone(events[..|events| - 1])
  }

  ghost predicate DoneInOrder(events: seq<Event>) {
    forall i, j :: 0 <= i < j < |events| && events[i].Run? && events[j].Run? ==> events[i].doneAt <= events[j].doneAt
  }

  /** Every completed run of `events` is more than `staleAfter` old. */
  ghost predicate Overdue(events: seq<Event>, now: int, staleAfter: int) {
    forall ev <- events :: ev.Run? ==> now - ev.doneAt > staleAfter
  }

  /** After any events, in whatever order their times are, the marker is the last completed
      run's, whether that run wrote a file or not, and the directory can be listed. */
  lemma {:induction false} MarkerIsLastDone(c: Codecs, device: string, transport: string, events: seq<Event>,
                                            files: Files)
    requires c.Lawful() && (forall ev <- events :: ev.Valid()) && Reaches(c, device, transport, events, files)
    ensures Sound(c, files) && Readable(c, device, files)
    ensures LastSuccessAt(c, files) == LastDone(events)
    decreases |events|
  {
    hide EventStep, Codecs.Lawful, Event.Valid, Sound, Readable;
    if events == [] {
      EmptyIsSound(c);
    } else {
      var n := |events| - 1;
      var before: Files :|
        Reaches(c, device, transport, events[..n], before) && EventStep(c, device, transport, before, events[n], files);
      MarkerIsLastDone(c, device, transport, events[..n], before);
      EventIsSound(c, device, transport, before, events[n], files);
    }
    SoundIsReadable(c, device, files);
  }

  lemma EmptyIsSound(c: Codecs)
    ensures Sound(c, map[])
  {
  }

  lemma {:induction false} LastDoneIsLatest(events: seq<Event>)
    requires DoneInOrder(events)
    ensures LastDone(events).None? ==> forall ev <- events :: !ev.Run?
    ensures LastDone(events).Some? ==>
      && (forall ev <- events :: ev.Run? ==> ev.doneAt <= LastDone(events).value)
      && exists ev <- events :: ev.Run? && ev.doneAt == LastDone(events).value
  {
    if events != [] {
      var n := |events| - 1;
      assert forall i :: 0 <= i < n ==> events[..n][i] == events[i];
      LastDoneIsLatest(events[..n]);
      assert forall ev <- events :: ev in events[..n] || ev == events[n];
    }
  }

  lemma ReachesOneMore(c: Codecs, device: string, transport: string, events: seq<Event>, files0: Files, ev: Event,
                       files: Files)
    requires ev.Valid() && forall e <- events :: e.Valid()
    requires Reaches(c, device, transport, events, files0) && EventStep(c, device, transport, files0, ev, files)
    ensures Reaches(c, device, transport, events + [ev], files)
  {
    hide EventStep;
    var all := events + [ev];
    assert all[..|all| - 1] == events && all[|all| - 1] == ev;
  }

  lemma {:induction false} EventsAreValid(w: seq<Happening>, d: string)
    requires Plausible(w)
    ensures forall ev <- StoreEvents(w, d) :: ev.Valid()
  {
    hide Event.Valid;
    if w != [] { EventsAreValid(w[..|w| - 1], d); }
  }

  lemma ShapeStep(st: AlertState, sent: seq<Message>, tick: seq<Tick>)
    requires |tick| <= 1 && Remembers(st, sent) && AlertsThenRecovery(sent) && Spaced(sent)
    ensures var (after, more) := RunFrom(st, tick);
            Remembers(after, sent + more) && AlertsThenRecovery(sent + more) && Spaced(sent + more)
  {
    hide OnTick, Remembers, AlertsThenRecovery, Spaced;
    if tick == [] {
      assert sent + [] == sent;
    } else {
      assert tick == [tick[0]];
      OneTick(st, tick[0]);
      ShapeTick(st, sent, tick[0]);
      hide RunFrom;
    }
  }

  lemma ShapeTick(st: AlertState, sent: seq<Message>, tick: Tick)
    requires Remembers(st, sent) && AlertsThenRecovery(sent) && Spaced(sent)
    ensures var (after, kind) := OnTick(st, tick);
            var all := sent + if kind.Some? then [Message(kind.value, tick.now)] else [];
            Remembers(after, all) && AlertsThenRecovery(all) && Spaced(all)
  {
    var (_, kind) := OnTick(st, tick);
    if kind.None? { assert sent + [] == sent; }
  }

  lemma NothingSent()
    ensures Remembers(FRESH, []) && AlertsThenRecovery([]) && Spaced([])
  {
  }

  /** The part of the world that concerns one device: its directory is reached by its own
      events, and its alert state and messages have the shape proved for checks alone. */
  lemma {:induction false} WorldOfDevice(c: Codecs, transport: string -> string, w: seq<Happening>, dirs: Dirs,
                                         states: map<string, AlertState>, notices: seq<Notice>, d: string)
    requires Plausible(w) && World(c, transport, w, dirs, states, notices)
    ensures forall ev <- StoreEvents(w, d) :: ev.Valid()
    ensures Reaches(c, d, transport(d), StoreEvents(w, d), DirOf(dirs, d))
    ensures var st, sent := StateOf(states, d), SentTo(notices, d);
            Remembers(st, sent) && AlertsThenRecovery(sent) && Spaced(sent)
    decreases |w|
  {
    hide EventStep, Check, RunFrom, TickOf, Remembers, AlertsThenRecovery, Spaced, Event.Valid, Distinct;
    EventsAreValid(w, d);
    if w == [] {
      NothingSent();
      assert NoticesFor([], d) == [] && MessagesOf([]) == [];
    } else {
      var before := w[..|w| - 1];
      EventsAreValid(before, d);
      match w[|w| - 1]
      case Stored(device, ev) =>
        var dirs0: Dirs :|
          World(c, transport, before, dirs0, states, notices) && DirStep(c, transport, dirs0, device, ev, dirs);
        WorldOfDevice(c, transport, before, dirs0, states, notices, d);
        if device == d {
          ReachesOneMore(c, d, transport(d), StoreEvents(before, d), DirOf(dirs0, d), ev, dirs[d]);
        } else {
          assert StoreEvents(before, d) + [] == StoreEvents(before, d);
        }
      case Checked(devices, staleAfter, now) =>
        var states0: map<string, AlertState>, notices0: seq<Notice> :|
          && World(c, transport, before, dirs, states0, notices0)
          && CheckStepOn(c, dirs, states0, notices0, devices, staleAfter, now, states, notices);
        WorldOfDevice(c, transport, before, dirs, states0, notices0, d);
        assert StoreEvents(before, d) + [] == StoreEvents(before, d);
        CheckOnDevice(c, dirs, states0, notices0, devices, staleAfter, now, states, notices, d);
        var r := Round(devices, Recorded(c, dirs, devices), staleAfter, now);
        AtMostOneTick(r, d);
        ShapeStep(StateOf(states0, d), SentTo(notices0, d), TickOf(r, d));
    }
  }

  lemma AtMostOneTick(r: Round, d: string)
    ensures |TickOf(r, d)| <= 1
  {
  }

  lemma CheckOnDevice(c: Codecs, dirs: Dirs, states0: map<string, AlertState>, notices0: seq<Notice>,
                      devices: seq<string>, staleAfter: int, now: int, states: map<string, AlertState>,
                      notices: seq<Notice>, d: string)
    requires Distinct(devices)
    requires CheckStepOn(c, dirs, states0, notices0, devices, staleAfter, now, states, notices)
    ensures var r := Round(devices, Recorded(c, dirs, devices), staleAfter, now);
            var (st, more) := RunFrom(StateOf(states0, d), TickOf(r, d));
            StateOf(states, d) == st && SentTo(notices, d) == SentTo(notices0, d) + more
  {
    hide Check, RunFrom, TickOf, Distinct, Recorded;
    var r := Round(devices, Recorded(c, dirs, devices), staleAfter, now);
    RoundIsTick(states0, r, d);
    SentConcat(notices0, Check(states0, devices, r.last, staleAfter, now).1, d);
  }

  /** The tick a device sees reads the marker in its directory. */
  lemma TickReadsMarker(c: Codecs, dirs: Dirs, devices: seq<string>, staleAfter: int, now: int, d: string)
    requires d in devices
    ensures TickOf(Round(devices, Recorded(c, dirs, devices), staleAfter, now), d)
         == [Tick(now, LastSuccessAt(c, DirOf(dirs, d)), staleAfter)]
  {
    hide LastSuccessAt;
  }

  /** End to end, at any check of the shared map after any interleaving of the devices'
      events and earlier checks, for any device checked then that has completed a run: it
      counts as stale exactly when no run was completed within `staleAfter`; it is alerted
      exactly then, unless it already was less than 24 hours ago; a recovery is sent exactly
      when it was stale and has such a run again. */
  lemma AlertMeansOverdue(c: Codecs, transport: string -> string, w: seq<Happening>, dirs: Dirs,
                          states0: map<string, AlertState>, notices0: seq<Notice>, devices: seq<string>,
                          staleAfter: int, now: int, states: map<string, AlertState>, notices: seq<Notice>, d: string)
    requires Plausible(w) && Distinct(devices) && d in devices
    requires c.Lawful() && DoneInOrder(StoreEvents(w, d))
    requires World(c, transport, w, dirs, states0, notices0)
    requires CheckStepOn(c, dirs, states0, notices0, devices, staleAfter, now, states, notices)
    requires exists ev <- StoreEvents(w, d) :: ev.Run?
    ensures StateOf(states0, d).stale <==> StateOf(states0, d).lastAlert.Some?
    ensures var overdue, wasStale := Overdue(StoreEvents(w, d), now, staleAfter), StateOf(states0, d).stale;
            var earlier, sent := SentTo(notices0, d), SentTo(notices, d);
            && (StateOf(states, d).stale <==> overdue)
            && (|| sent == earlier
                || sent == earlier + [Message(Stale, now)]
                || sent == earlier + [Message(Recovered, now)])
            && (sent == earlier + [Message(Stale, now)] <==>
                overdue && (wasStale ==> now - StateOf(states0, d).lastAlert.value >= 86_400_000_000_000))
            && (sent == earlier + [Message(Recovered, now)] <==> wasStale && !overdue)
  {
    hide World, CheckStepOn, RunFrom, TickOf, Recorded, LastSuccessAt, Codecs.Lawful, Sound, Readable, Reaches;
    hide StoreEvents, Distinct, LastDone, SentTo;
    var events, earlier := StoreEvents(w, d), SentTo(notices0, d);
    WorldOfDevice(c, transport, w, dirs, states0, notices0, d);
    MarkerIsLastDone(c, d, transport(d), events, DirOf(dirs, d));
    OverdueIsOld(events, now, staleAfter);
    CheckOnDevice(c, dirs, states0, notices0, devices, staleAfter, now, states, notices, d);
    TickReadsMarker(c, dirs, devices, staleAfter, now, d);
    OneTick(StateOf(states0, d), Tick(now, LastDone(events), staleAfter));
    OneMessage(earlier, now);
  }

  lemma OverdueIsOld(events: seq<Event>, now: int, staleAfter: int)
    requires DoneInOrder(events) && exists ev <- events :: ev.Run?
    ensures LastDone(events).Some?
    ensures Overdue(events, now, staleAfter) <==> now - LastDone(events).value > staleAfter
  {
    LastDoneIsLatest(events);
  }

  lemma OneMessage(sent: seq<Message>, now: int)
    ensures sent + [] == sent && sent + [Message(Stale, now)] != sent && sent + [Message(Recovered, now)] != sent
    ensures sent + [Message(Stale, now)] != sent + [Message(Recovered, now)]
  {
    assert (sent + [Message(Stale, now)])[|sent|] != (sent + [Message(Recovered, now)])[|sent|];
  }

  lemma {:induction false} NothingDone(events: seq<Event>)
    requires forall ev <- events :: !ev.Run?
    ensures LastDone(events).None?
  {
    if events != [] { NothingDone(events[..|events| - 1]); }
  }

  /** A device that never completed a run is never reported, and its entry is untouched. */
  lemma NoBaselineIsQuiet(c: Codecs, transport: string -> string, w: seq<Happening>, dirs: Dirs,
                          states0: map<string, AlertState>, notices0: seq<Notice>, devices: seq<string>,
                          staleAfter: int, now: int, states: map<string, AlertState>, notices: seq<Notice>, d: string)
    requires Plausible(w) && Distinct(devices)
    requires c.Lawful()
    requires World(c, transport, w, dirs, states0, notices0)
    requires CheckStepOn(c, dirs, states0, notices0, devices, staleAfter, now, states, notices)
    requires forall ev <- StoreEvents(w, d) :: !ev.Run?
    ensures StateOf(states, d) == StateOf(states0, d) && SentTo(notices, d) == SentTo(notices0, d)
  {
    hide World, Check, LastDone, Codecs.Lawful, Sound, Readable, Reaches, StoreEvents, Distinct;
    WorldOfDevice(c, transport, w, dirs, states0, notices0, d);
    MarkerIsLastDone(c, d, transport(d), StoreEvents(w, d), DirOf(dirs, d));
    NothingDone(StoreEvents(w, d));
    var last := Recorded(c, dirs, devices);
    Untouched(states0, devices, last, staleAfter, now, d);
    SentConcat(notices0, Check(states0, devices, last, staleAfter, now).1, d);
    assert MessagesOf([]) == [] && SentTo(notices0, d) + [] == SentTo(notices0, d);
  }
}
