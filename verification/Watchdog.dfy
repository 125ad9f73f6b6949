/** The watchdog: per device, alert once when backups go stale, again every 24 hours, and
    once on recovery. */
module Watchdog {
  import opened Wrappers
  import opened Sequences
  import opened Clock

  /** 24 hours. */
  const REALERT: int := DAY

  datatype AlertState = AlertState(stale: bool, lastAlert: Option<int>)

  const FRESH := AlertState(false, None)

  datatype Decision = Quiet | Alert | Recover

  function Decide(isStale: bool, prevStale: bool, lastAlert: Option<int>, now: int): Decision {
    if isStale then
      var due := lastAlert.None? || now - lastAlert.value >= REALERT;
      if !prevStale || due then Alert else Quiet
    else if prevStale then Recover
    else Quiet
  }

  datatype Kind = Stale | Recovered

  datatype Notice = Notice(device: string, kind: Kind, at: int)

  /** One device with a recorded success at one tick: its new state and what is sent. */
  function Observe(st: AlertState, last: int, staleAfter: int, now: int): (AlertState, Option<Kind>) {
    var isStale := now - last > staleAfter;
    match Decide(isStale, st.stale, st.lastAlert, now)
    case Alert => (AlertState(true, Some(now)), Some(Stale))
    case Recover => (FRESH, Some(Recovered))
    case Quiet => (st.(stale := isStale), None)
  }

  function StateOf(states: map<string, AlertState>, device: string): AlertState {
    if device in states then states[device] else FRESH
  }

  /** What the check still has to do: the states and notices after the devices left. */
  function Check(states: map<string, AlertState>, devices: seq<string>, last: map<string, int>, staleAfter: int,
                 now: int)
    : (map<string, AlertState>, seq<Notice>)
    decreases |devices|
  {
    if devices == [] then (states, [])
    else if devices[0] !in last then Check(states, devices[1..], last, staleAfter, now)
    else
      var (st, sent) := Observe(StateOf(states, devices[0]), last[devices[0]], staleAfter, now);
      var (rest, notices) := Check(states[devices[0] := st], devices[1..], last, staleAfter, now);
      (rest, (if sent.Some? then [Notice(devices[0], sent.value, now)] else []) + notices)
  }

  class Watch {
    var states: map<string, AlertState>

    constructor ()
      ensures states == map[]
    {
      states := map[];
    }

    /** One tick over the configured devices; `last` holds the recorded successes. */
    method CheckOnce(devices: seq<string>, last: map<string, int>, staleAfter: int, now: int)
      returns (notices: seq<Notice>)
      modifies this
      ensures (states, notices) == Check(old(states), devices, last, staleAfter, now)
    {
      hide Check, Observe;
      notices := [];
      assert devices[0..] == devices;
      JoinNothing([], Check(states, devices, last, staleAfter, now));
      for k := 0 to |devices|
        invariant Joined(notices, Check(states, devices[k..], last, staleAfter, now)) ==
          Check(old(states), devices, last, staleAfter, now)
      {
        var device := devices[k];
        ghost var before, sent := states, notices;
        CheckStep(states, notices, devices, k, last, staleAfter, now);
        if device !in last {
          continue;
        }
        var isStale := now - last[device] > staleAfter;
        if device !in states {
          states := states[device := FRESH];
        }
        var state := states[device];
        ObserveCases(state, last[device], staleAfter, now);
        match Decide(isStale, state.stale, state.lastAlert, now) {
          case Alert =>
            notices := notices + [Notice(device, Stale, now)];
            states := states[device := AlertState(true, Some(now))];
          case Recover =>
            notices := notices + [Notice(device, Recovered, now)];
            states := states[device := AlertState(false, None)];
          case Quiet =>
            states := states[device := AlertState(isStale, state.lastAlert)];
        }
        assert states == before[device := Observe(StateOf(before, device), last[device], staleAfter, now).0];
        assert sent + [] == sent;
      }
      NothingToCheck(states, last, staleAfter, now);
      JoinNothing(notices, (states, []));
      assert devices[|devices|..] == [];
    }
  }

  function Joined(notices: seq<Notice>, rest: (map<string, AlertState>, seq<Notice>))
    : (map<string, AlertState>, seq<Notice>)
  {
    (rest.0, notices + rest.1)
  }

  lemma JoinNothing(notices: seq<Notice>, rest: (map<string, AlertState>, seq<Notice>))
    ensures Joined([], rest) == rest && Joined(notices, (rest.0, [])) == (rest.0, notices)
  {
    assert [] + rest.1 == rest.1 && notices + [] == notices;
  }

  lemma NothingToCheck(states: map<string, AlertState>, last: map<string, int>, staleAfter: int, now: int)
    ensures Check(states, [], last, staleAfter, now) == (states, [])
  {
  }

  lemma ObserveCases(st: AlertState, last: int, staleAfter: int, now: int)
    ensures var isStale := now - last > staleAfter;
            Observe(st, last, staleAfter, now) ==
              match Decide(isStale, st.stale, st.lastAlert, now)
              case Alert => (AlertState(true, Some(now)), Some(Stale))
              case Recover => (AlertState(false, None), Some(Recovered))
              case Quiet => (AlertState(isStale, st.lastAlert), None)
  {
  }

  function Sent(device: string, kind: Option<Kind>, now: int): seq<Notice> {
    if kind.Some? then [Notice(device, kind.value, now)] else []
  }

  lemma CheckStep(states: map<string, AlertState>, notices: seq<Notice>, devices: seq<string>, k: nat,
                  last: map<string, int>, staleAfter: int, now: int)
    requires k < |devices|
    ensures var d := devices[k];
            Joined(notices, Check(states, devices[k..], last, staleAfter, now)) ==
              if d !in last then Joined(notices, Check(states, devices[k + 1..], last, staleAfter, now))
              else
                var (st, kind) := Observe(StateOf(states, d), last[d], staleAfter, now);
                Joined(notices + Sent(d, kind, now), Check(states[d := st], devices[k + 1..], last, staleAfter, now))
  {
    hide Observe;
    var d := devices[k];
    assert devices[k..][0] == d && devices[k..][1..] == devices[k + 1..];
    if d in last {
      var (st, kind) := Observe(StateOf(states, d), last[d], staleAfter, now);
      ConcatAssoc(notices, Sent(d, kind, now), Check(states[d := st], devices[k + 1..], last, staleAfter, now).1);
    }
  }
}
