/** What the watchdog's notices look like over any sequence of ticks. */
module WatchdogLaws {
  import opened Wrappers
  import opened Sequences
  import opened Watchdog

  // ----- One shared map is as good as one machine per device -----

  ghost predicate Distinct(devices: seq<string>) {
    forall i, j :: 0 <= i < j < |devices| ==> devices[i] != devices[j]
  }

  function NoticesFor(notices: seq<Notice>, device: string): seq<Notice> {
    if notices == [] then []
    else (if notices[0].device == device then [notices[0]] else []) + NoticesFor(notices[1..], device)
  }

  /** A device that is not checked, or has no recorded success, is left untouched. */
  lemma {:induction false} Untouched(states: map<string, AlertState>, devices: seq<string>, last: map<string, int>,
                                     staleAfter: int, now: int, d: string)
    requires d !in devices || d !in last
    ensures var (states', notices) := Check(states, devices, last, staleAfter, now);
            && (d in states' <==> d in states) && (d in states ==> states'[d] == states[d])
            && NoticesFor(notices, d) == []
    decreases |devices|
  {
    hide Observe;
    if devices != [] {
      if devices[0] !in last {
        Untouched(states, devices[1..], last, staleAfter, now, d);
      } else {
        var e := devices[0];
        var (st, kind) := Observe(StateOf(states, e), last[e], staleAfter, now);
        Untouched(states[e := st], devices[1..], last, staleAfter, now, d);
        HeadNotice(kind, e, d, now, Check(states[e := st], devices[1..], last, staleAfter, now).1);
      }
    }
  }

  /** With distinct names every checked device steps exactly as if it were alone, whatever
      the order and whatever the others do. */
  lemma {:induction false} IndependentMachines(states: map<string, AlertState>, devices: seq<string>,
                                               last: map<string, int>, staleAfter: int, now: int, d: string)
    requires Distinct(devices) && d in devices && d in last
    ensures var (states', notices) := Check(states, devices, last, staleAfter, now);
            var (st, kind) := Observe(StateOf(states, d), last[d], staleAfter, now);
            d in states' && states'[d] == st && NoticesFor(notices, d) == Sent(d, kind, now)
    decreases |devices|
  {
    hide Observe;
    var rest := devices[1..];
    assert Distinct(rest);
    var (states', notices) := Check(states, devices, last, staleAfter, now);
    if devices[0] == d {
      var (st, kind) := Observe(StateOf(states, d), last[d], staleAfter, now);
      assert d !in rest;
      Untouched(states[d := st], rest, last, staleAfter, now, d);
      HeadNotice(kind, d, d, now, Check(states[d := st], rest, last, staleAfter, now).1);
    } else if devices[0] !in last {
      IndependentMachines(states, rest, last, staleAfter, now, d);
    } else {
      var e := devices[0];
      var (st, kind) := Observe(StateOf(states, e), last[e], staleAfter, now);
      IndependentMachines(states[e := st], rest, last, staleAfter, now, d);
      HeadNotice(kind, e, d, now, Check(states[e := st], rest, last, staleAfter, now).1);
    }
  }

  lemma HeadNotice(kind: Option<Kind>, e: string, d: string, now: int, rest: seq<Notice>)
    ensures NoticesFor(Sent(e, kind, now) + rest, d) ==
            (if e == d then Sent(e, kind, now) else []) + NoticesFor(rest, d)
  {
    var all := Sent(e, kind, now) + rest;
    if kind.Some? {
      assert all[1..] == rest;
    } else {
      assert all == rest;
    }
  }

  /** A check sends at most one notice per device, dated now, in the order of the devices:
      `at[i]` is the position of the device that notice `i` is about. */
  lemma {:induction false} NoticesInOrder(states: map<string, AlertState>, devices: seq<string>,
                                          last: map<string, int>, staleAfter: int, now: int)
    returns (at: seq<nat>)
    ensures var notices := Check(states, devices, last, staleAfter, now).1;
            && |at| == |notices|
            && (forall i :: 0 <= i < |at| ==>
                  at[i] < |devices| && notices[i].device == devices[at[i]] && notices[i].at == now)
            && forall i, j :: 0 <= i < j < |at| ==> at[i] < at[j]
    decreases |devices|
  {
    hide Observe;
    at := [];
    if devices != [] {
      var e, rest := devices[0], devices[1..];
      if e !in last {
        var later := NoticesInOrder(states, rest, last, staleAfter, now);
        at := seq(|later|, i requires 0 <= i < |later| => later[i] + 1);
      } else {
        var (st, kind) := Observe(StateOf(states, e), last[e], staleAfter, now);
        var later := NoticesInOrder(states[e := st], rest, last, staleAfter, now);
        at := (if kind.Some? then [0] else []) + seq(|later|, i requires 0 <= i < |later| => later[i] + 1);
      }
    }
  }

  // ----- One device over many ticks -----

  /** A tick at which the device is checked; `last` is None without a recorded success. */
  datatype Tick = Tick(now: int, last: Option<int>, staleAfter: int)

  datatype Message = Message(kind: Kind, at: int)

  function OnTick(st: AlertState, tick: Tick): (AlertState, Option<Kind>) {
    if tick.last.None? then (st, None) else Observe(st, tick.last.value, tick.staleAfter, tick.now)
  }

  /** The state and the messages after some ticks, from a given state. */
  function RunFrom(st: AlertState, ticks: seq<Tick>): (AlertState, seq<Message>) {
    if ticks == [] then (st, [])
    else
      var tick := ticks[|ticks| - 1];
      var (before, sent) := RunFrom(st, ticks[..|ticks| - 1]);
      var (after, kind) := OnTick(before, tick);
      (after, sent + if kind.Some? then [Message(kind.value, tick.now)] else [])
  }

  lemma {:induction false} RunConcat(st: AlertState, a: seq<Tick>, b: seq<Tick>)
    ensures var (mid, first) := RunFrom(st, a);
            var (after, second) := RunFrom(mid, b);
            RunFrom(st, a + b) == (after, first + second)
    decreases |b|
  {
    var (mid, first) := RunFrom(st, a);
    if b == [] {
      assert a + b == a && first + [] == first;
    } else {
      hide OnTick;
      var n := |b| - 1;
      RunConcat(st, a, b[..n]);
      var ticks := a + b;
      assert ticks[..|ticks| - 1] == a + b[..n] && ticks[|ticks| - 1] == b[n];
      var (before, sent) := RunFrom(mid, b[..n]);
      var (_, kind) := OnTick(before, b[n]);
      ConcatAssoc(first, sent, if kind.Some? then [Message(kind.value, b[n].now)] else []);
    }
  }

  // ----- Repeated checks over the shared map -----

  /** One pass of the daemon's loop: the devices configured then, the successes on disk. */
  datatype Round = Round(devices: seq<string>, last: map<string, int>, staleAfter: int, now: int)

  /** The shared map and all notices after some rounds, from an empty map. */
  function Rounds(rounds: seq<Round>): (map<string, AlertState>, seq<Notice>) {
    if rounds == [] then (map[], [])
    else
      var r := rounds[|rounds| - 1];
      var (states, notices) := Rounds(rounds[..|rounds| - 1]);
      var (states', sent) := Check(states, r.devices, r.last, r.staleAfter, r.now);
      (states', notices + sent)
  }

  /** What one device sees of a round: nothing while it is not configured. */
  function TickOf(r: Round, d: string): seq<Tick> {
    if d !in r.devices then []
    else [Tick(r.now, if d in r.last then Some(r.last[d]) else None, r.staleAfter)]
  }

  function TicksOf(rounds: seq<Round>, d: string): seq<Tick> {
    if rounds == [] then [] else TicksOf(rounds[..|rounds| - 1], d) + TickOf(rounds[|rounds| - 1], d)
  }

  function MessagesOf(notices: seq<Notice>): seq<Message> {
    seq(|notices|, i requires 0 <= i < |notices| => Message(notices[i].kind, notices[i].at))
  }

  /** The messages sent for one device. */
  function SentTo(notices: seq<Notice>, d: string): seq<Message> {
    MessagesOf(NoticesFor(notices, d))
  }

  lemma {:induction false} NoticesConcat(a: seq<Notice>, b: seq<Notice>, d: string)
    ensures NoticesFor(a + b, d) == NoticesFor(a, d) + NoticesFor(b, d)
    decreases |a|
  {
    if a == [] {
      assert a + b == b;
    } else {
      DropConcat(a, b, 1);
      NoticesConcat(a[1..], b, d);
      assert (a + b)[0] == a[0];
      ConcatAssoc(if a[0].device == d then [a[0]] else [], NoticesFor(a[1..], d), NoticesFor(b, d));
    }
  }

  lemma SentConcat(a: seq<Notice>, b: seq<Notice>, d: string)
    ensures SentTo(a + b, d) == SentTo(a, d) + SentTo(b, d)
  {
    NoticesConcat(a, b, d);
  }

  /** One round, seen from one device. */
  lemma RoundIsTick(states: map<string, AlertState>, r: Round, d: string)
    requires Distinct(r.devices)
    ensures var (states', sent) := Check(states, r.devices, r.last, r.staleAfter, r.now);
            (StateOf(states', d), SentTo(sent, d)) == RunFrom(StateOf(states, d), TickOf(r, d))
  {
    hide Observe, Check;
    var st := StateOf(states, d);
    if d in r.devices && d in r.last {
      IndependentMachines(states, r.devices, r.last, r.staleAfter, r.now, d);
      OneTick(st, TickOf(r, d)[0]);
      var (_, kind) := Observe(st, r.last[d], r.staleAfter, r.now);
      assert MessagesOf(Sent(d, kind, r.now)) == if kind.Some? then [Message(kind.value, r.now)] else [];
    } else {
      Untouched(states, r.devices, r.last, r.staleAfter, r.now, d);
      assert MessagesOf([]) == [];
      if d in r.devices {
        OneTick(st, TickOf(r, d)[0]);
      }
    }
  }

  lemma OneTick(st: AlertState, tick: Tick)
    ensures var (after, kind) := OnTick(st, tick);
            RunFrom(st, [tick]) == (after, if kind.Some? then [Message(kind.value, tick.now)] else [])
  {
    hide OnTick;
    var (after, kind) := OnTick(st, tick);
    assert [tick][..0] == [] && RunFrom(st, []) == (st, []);
    var sent := if kind.Some? then [Message(kind.value, tick.now)] else [];
    assert [] + sent == sent;
  }

  /** However often the daemon checks, whatever is configured at each check: every device's
      entry in the shared map and everything sent for it is what its own machine, run over
      its own ticks, gives. */
  lemma {:induction false} RoundsAreIndependent(rounds: seq<Round>, d: string)
    requires forall r <- rounds :: Distinct(r.devices)
    ensures var (states, notices) := Rounds(rounds);
            (StateOf(states, d), SentTo(notices, d)) == RunFrom(FRESH, TicksOf(rounds, d))
    decreases |rounds|
  {
    hide Check, Distinct;
    if rounds == [] {
      assert MessagesOf([]) == [] && NoticesFor([], d) == [];
    } else {
      var n := |rounds| - 1;
      var r := rounds[n];
      RoundsAreIndependent(rounds[..n], d);
      var (states, notices) := Rounds(rounds[..n]);
      RoundIsTick(states, r, d);
      SentConcat(notices, Check(states, r.devices, r.last, r.staleAfter, r.now).1, d);
      RunConcat(FRESH, TicksOf(rounds[..n], d), TickOf(r, d));
    }
  }

  // ----- The shape of what is sent -----

  /** The state remembers exactly the last alert not yet taken back. */
  ghost predicate Remembers(st: AlertState, sent: seq<Message>) {
    && (st.stale <==> st.lastAlert.Some?)
    && (st.stale <==> sent != [] && sent[|sent| - 1].kind == Stale)
    && (st.stale ==> st.lastAlert == Some(sent[|sent| - 1].at))
  }

  /** (Alert+ Recovered)*, cut off anywhere: it begins with an alert, and a recovery only
      follows an alert. */
  ghost predicate AlertsThenRecovery(sent: seq<Message>) {
    forall i :: 0 <= i < |sent| && sent[i].kind == Recovered ==> i > 0 && sent[i - 1].kind == Stale
  }

  /** Alerts with no recovery between them are at least 24 hours apart. */
  ghost predicate Spaced(sent: seq<Message>) {
    forall i :: 0 < i < |sent| && sent[i - 1].kind == Stale && sent[i].kind == Stale ==>
      sent[i].at - sent[i - 1].at >= 86_400_000_000_000
  }

  lemma {:induction false} MachineShape(ticks: seq<Tick>)
    ensures var (st, sent) := RunFrom(FRESH, ticks);
            Remembers(st, sent) && AlertsThenRecovery(sent) && Spaced(sent)
  {
    if ticks != [] {
      MachineShape(ticks[..|ticks| - 1]);
    }
  }

  /** For every device, over any sequence of checks of the shared map. */
  lemma TraceShape(rounds: seq<Round>, d: string)
    requires forall r <- rounds :: Distinct(r.devices)
    ensures var (states, notices) := Rounds(rounds);
            var st, sent := StateOf(states, d), SentTo(notices, d);
            Remembers(st, sent) && AlertsThenRecovery(sent) && Spaced(sent)
  {
    RoundsAreIndependent(rounds, d);
    MachineShape(TicksOf(rounds, d));
  }

  /** k alerts in a row span at least k - 1 days. */
  lemma {:induction false} AlertsSpan(sent: seq<Message>, i: nat, j: nat)
    requires Spaced(sent) && i <= j < |sent| && forall m :: i <= m <= j ==> sent[m].kind == Stale
    ensures sent[j].at - sent[i].at >= (j - i) * REALERT
    decreases j
  {
    if i < j {
      AlertsSpan(sent, i, j - 1);
    }
  }

  /** A stretch of ticks at which the device has a recorded success and is overdue, in
      order and at most `gap` apart. */
  ghost predicate StaleStretch(ticks: seq<Tick>, gap: int) {
    && (forall t <- ticks :: t.last.Some? && t.now - t.last.value > t.staleAfter)
    && (forall i :: 0 < i < |ticks| ==> 0 <= ticks[i].now - ticks[i - 1].now <= gap)
  }

  /** How long a stretch with `k` alerts may last. */
  function Bound(k: int, gap: int): int {
    (k - 1) * (REALERT + gap) + REALERT
  }

  /** All alerts, the first at `first`; the last is remembered and less than 24 hours old at
      `now`, and each took at most 24 hours and one gap. */
  ghost predicate Reported(first: int, now: int, gap: int, st: AlertState, sent: seq<Message>) {
    && sent != [] && sent[0] == Message(Stale, first) && (forall m <- sent :: m.kind == Stale)
    && var lastAlert := sent[|sent| - 1].at;
    && st == AlertState(true, Some(lastAlert))
    && now - lastAlert < REALERT
    && lastAlert - first + REALERT <= Bound(|sent|, gap)
  }

  lemma StaleTick(first: int, prev: int, gap: int, st: AlertState, sent: seq<Message>, tick: Tick)
    requires Reported(first, prev, gap, st, sent) && tick.now - prev <= gap
    requires tick.last.Some? && tick.now - tick.last.value > tick.staleAfter
    ensures var (st', kind) := OnTick(st, tick);
            Reported(first, tick.now, gap, st', sent + if kind.Some? then [Message(kind.value, tick.now)] else [])
  {
    var k := |sent|;
    var (st', kind) := OnTick(st, tick);
    if kind.Some? {
      var sent' := sent + [Message(Stale, tick.now)];
      assert sent'[0] == sent[0] && sent'[|sent'| - 1].at == tick.now;
      OneMoreGap(k, REALERT + gap);
    } else {
      assert sent + [] == sent;
    }
  }

  lemma OneMoreGap(k: int, x: int)
    ensures k * x == (k - 1) * x + x
  {
  }

  lemma {:induction false} StretchFromFresh(ticks: seq<Tick>, gap: int)
    requires StaleStretch(ticks, gap) && ticks != []
    ensures var (st, sent) := RunFrom(FRESH, ticks);
            && Reported(ticks[0].now, ticks[|ticks| - 1].now, gap, st, sent)
            && ticks[|ticks| - 1].now - ticks[0].now < Bound(|sent|, gap)
  {
    hide Reported, Bound, OnTick;
    var n := |ticks| - 1;
    var before := ticks[..n];
    if n == 0 {
      assert RunFrom(FRESH, before) == (FRESH, []);
      FirstStaleTick(ticks[0], gap);
      assert [] + [Message(Stale, ticks[0].now)] == [Message(Stale, ticks[0].now)];
    } else {
      assert StaleStretch(before, gap) by {
        assert forall i :: 0 <= i < n ==> before[i] == ticks[i];
      }
      StretchFromFresh(before, gap);
      var (st, sent) := RunFrom(FRESH, before);
      assert before[n - 1] == ticks[n - 1] && before[0] == ticks[0];
      StaleTick(ticks[0].now, ticks[n - 1].now, gap, st, sent, ticks[n]);
    }
    var (st, sent) := RunFrom(FRESH, ticks);
    StretchLength(ticks[0].now, ticks[n].now, gap, st, sent);
  }

  lemma FirstStaleTick(tick: Tick, gap: int)
    requires tick.last.Some? && tick.now - tick.last.value > tick.staleAfter
    ensures OnTick(FRESH, tick) == (AlertState(true, Some(tick.now)), Some(Stale))
    ensures Reported(tick.now, tick.now, gap, AlertState(true, Some(tick.now)), [Message(Stale, tick.now)])
  {
  }

  lemma StretchLength(first: int, now: int, gap: int, st: AlertState, sent: seq<Message>)
    requires Reported(first, now, gap, st, sent)
    ensures now - first < Bound(|sent|, gap)
  {
  }

  /** A device that is not stale is in the initial state, so a stale stretch anywhere in a
      machine's life is reported like one at its start. */
  lemma StretchInTrace(before: seq<Tick>, stretch: seq<Tick>, gap: int)
    requires !RunFrom(FRESH, before).0.stale && StaleStretch(stretch, gap) && stretch != []
    ensures var (st, sent) := RunFrom(FRESH, stretch);
            RunFrom(FRESH, before + stretch) == (st, RunFrom(FRESH, before).1 + sent)
  {
    MachineShape(before);
    RunConcat(FRESH, before, stretch);
  }

  lemma {:induction false} TicksConcat(a: seq<Round>, b: seq<Round>, d: string)
    ensures TicksOf(a + b, d) == TicksOf(a, d) + TicksOf(b, d)
    decreases |b|
  {
    hide TickOf;
    if b == [] {
      assert a + b == a && TicksOf(a, d) + [] == TicksOf(a, d);
    } else {
      var all, n := a + b, |b| - 1;
      assert all[..|all| - 1] == a + b[..n] && all[|all| - 1] == b[n];
      TicksConcat(a, b[..n], d);
      ConcatAssoc(TicksOf(a, d), TicksOf(b[..n], d), TickOf(b[n], d));
    }
  }

  /** Over the shared map, from any check at which the device is not stale on: through a
      stretch of checks that find it overdue, at most `gap` apart, the first one alerts, all
      messages are alerts, and with k of them the stretch is shorter than
      (k - 1) * (24h + gap) + 24h. */
  lemma StaleStretchIsReported(before: seq<Round>, during: seq<Round>, d: string, gap: int)
    requires forall r <- before + during :: Distinct(r.devices)
    requires !StateOf(Rounds(before).0, d).stale
    requires StaleStretch(TicksOf(during, d), gap) && TicksOf(during, d) != []
    ensures StretchReported(TicksOf(during, d), gap, SentTo(Rounds(before).1, d),
                            StateOf(Rounds(before + during).0, d), SentTo(Rounds(before + during).1, d))
  {
    hide Rounds, StaleStretch, RunFrom, TicksOf, Distinct, StateOf, SentTo, StretchReported;
    assert forall r <- before :: r in before + during;
    RoundsAreIndependent(before, d);
    RoundsAreIndependent(before + during, d);
    TicksConcat(before, during, d);
    StretchIsReported(TicksOf(before, d), TicksOf(during, d), gap);
  }

  /** What a stretch adds to the messages `earlier`. */
  ghost predicate StretchReported(ticks: seq<Tick>, gap: int, earlier: seq<Message>, st: AlertState, all: seq<Message>)
    requires ticks != []
  {
    var first, end := ticks[0].now, ticks[|ticks| - 1].now;
    && earlier <= all
    && Reported(first, end, gap, st, all[|earlier|..])
    && end - first < Bound(|all| - |earlier|, gap)
  }

  lemma StretchIsReported(before: seq<Tick>, stretch: seq<Tick>, gap: int)
    requires !RunFrom(FRESH, before).0.stale && StaleStretch(stretch, gap) && stretch != []
    ensures var (st, all) := RunFrom(FRESH, before + stretch);
            StretchReported(stretch, gap, RunFrom(FRESH, before).1, st, all)
  {
    hide RunFrom, StaleStretch, Reported, Bound;
    StretchInTrace(before, stretch, gap);
    StretchFromFresh(stretch, gap);
    var earlier, sent := RunFrom(FRESH, before).1, RunFrom(FRESH, stretch).1;
    assert (earlier + sent)[|earlier|..] == sent;
  }
}
