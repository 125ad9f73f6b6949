/** "Run now" in the web interface: at most one web-triggered backup per device at a time. */
module Flight {

  type HandlerId = nat

  /** A request for a device: it has found the device, it holds the device's reservation and
      runs the backup, it was turned away, or it is over. */
  datatype Phase = Found(name: string) | Running(name: string) | Rejected(name: string) | Over

  datatype State = State(inFlight: set<string>, handlers: map<HandlerId, Phase>)

  const IDLE := State({}, map[])

  /** What may happen next: a request arrives (for a configured device or not), one tries to
      reserve its device, or one that runs a backup ends: with a report, by a panic, or
      because the client went away. */
  datatype Action = Arrive(h: HandlerId, name: string, known: bool) | Reserve(h: HandlerId) | End(h: HandlerId)

  /** An action that is not possible in a state changes nothing. */
  function Next(s: State, a: Action): State {
    match a
    case Arrive(h, name, known) =>
      if h in s.handlers then s else s.(handlers := s.handlers[h := if known then Found(name) else Over])
    case Reserve(h) =>
      if h in s.handlers && s.handlers[h].Found? then
        var name := s.handlers[h].name;
        if name in s.inFlight then s.(handlers := s.handlers[h := Rejected(name)])
        else State(s.inFlight + {name}, s.handlers[h := Running(name)])
      else s
    case End(h) =>
      if h in s.handlers && s.handlers[h].Running? then
        State(s.inFlight - {s.handlers[h].name}, s.handlers[h := Over])
      else s
  }

  function Run(s: State, actions: seq<Action>): State {
    if actions == [] then s else Next(Run(s, actions[..|actions| - 1]), actions[|actions| - 1])
  }

  class WebState {
    var inFlight: set<string>
    var handlers: map<HandlerId, Phase>

    constructor ()
      ensures Now() == IDLE
    {
      inFlight, handlers := {}, map[];
    }

    function Now(): State
      reads this
    {
      State(inFlight, handlers)
    }

    method Request(h: HandlerId, name: string, known: bool)
      requires h !in handlers
      modifies this`handlers
      ensures Now() == Next(old(Now()), Arrive(h, name, known))
    {
      if known {
        handlers := handlers[h := Found(name)];
      } else {
        handlers := handlers[h := Over];
      }
    }

    /** The reservation; a conflict is answered without creating the guard. */
    method TryReserve(h: HandlerId) returns (conflict: bool)
      requires h in handlers && handlers[h].Found?
      modifies this
      ensures Now() == Next(old(Now()), Reserve(h))
      ensures conflict <==> old(handlers[h].name) in old(inFlight)
    {
      var name := handlers[h].name;
      conflict := name in inFlight;
      if conflict {
        handlers := handlers[h := Rejected(name)];
      } else {
        inFlight := inFlight + {name};
        handlers := handlers[h := Running(name)];
      }
    }

    /** Dropping the guard. */
    method DropGuard(h: HandlerId)
      requires h in handlers && handlers[h].Running?
      modifies this
      ensures Now() == Next(old(Now()), End(h))
    {
      inFlight := inFlight - {handlers[h].name};
      handlers := handlers[h := Over];
    }
  }

  // ----- What every interleaving keeps -----

  /** The reserved devices are those with a running handler, and no two handlers run for the
      same device. */
  ghost predicate Exclusive(s: State) {
    && (forall h <- s.handlers :: s.handlers[h].Running? ==> s.handlers[h].name in s.inFlight)
    && (forall name <- s.inFlight :: exists h <- s.handlers :: s.handlers[h] == Running(name))
    && (forall h <- s.handlers, g <- s.handlers ::
          s.handlers[h].Running? && s.handlers[g].Running? && s.handlers[h].name == s.handlers[g].name ==> h == g)
  }

  lemma StepKeepsExclusive(s: State, a: Action)
    requires Exclusive(s)
    ensures Exclusive(Next(s, a))
  {
    var t := Next(s, a);
    forall name <- t.inFlight ensures exists h <- t.handlers :: t.handlers[h] == Running(name) {
      if name in s.inFlight {
        var h :| h in s.handlers && s.handlers[h] == Running(name);
        assert h in t.handlers && t.handlers[h] == Running(name);
      } else {
        assert a.Reserve? && t.handlers[a.h] == Running(name);
      }
    }
  }

  lemma {:induction false} AlwaysExclusive(actions: seq<Action>)
    ensures Exclusive(Run(IDLE, actions))
  {
    if actions != [] {
      AlwaysExclusive(actions[..|actions| - 1]);
      StepKeepsExclusive(Run(IDLE, actions[..|actions| - 1]), actions[|actions| - 1]);
    }
  }

  /** Once turned away, a handler changes no reservation, whatever it or others do. */
  lemma {:induction false} RejectedReleasesNothing(s: State, actions: seq<Action>, h: HandlerId)
    requires h in s.handlers && s.handlers[h].Rejected?
    ensures var t := Run(s, actions);
            && h in t.handlers && t.handlers[h] == s.handlers[h]
            && Next(t, Reserve(h)) == t && Next(t, End(h)) == t
    decreases |actions|
  {
    if actions != [] {
      RejectedReleasesNothing(s, actions[..|actions| - 1], h);
    }
  }

  /** A request for a device that is not configured is over at once and for good: it never
      reserves anything. */
  lemma {:induction false} UnknownNeverRuns(s: State, name: string, actions: seq<Action>, h: HandlerId)
    requires h !in s.handlers
    ensures var t := Run(Next(s, Arrive(h, name, false)), actions);
            && Next(s, Arrive(h, name, false)).inFlight == s.inFlight
            && h in t.handlers && t.handlers[h] == Over
            && Next(t, Reserve(h)) == t && Next(t, End(h)) == t
    decreases |actions|
  {
    if actions != [] {
      UnknownNeverRuns(s, name, actions[..|actions| - 1], h);
    }
  }

  /** A request for a configured device runs its backup at its first try exactly if no other
      does, and then the device is reserved. */
  lemma KnownRunsExactly(actions: seq<Action>, name: string, h: HandlerId)
    requires h !in Run(IDLE, actions).handlers
    ensures var s := Run(IDLE, actions);
            var t := Next(Next(s, Arrive(h, name, true)), Reserve(h));
            && (t.handlers[h] == Running(name) <==> !exists g <- s.handlers :: s.handlers[g] == Running(name))
            && (t.handlers[h] == Running(name) ==> t.inFlight == s.inFlight + {name})
            && (t.handlers[h] != Running(name) ==> t.handlers[h] == Rejected(name) && t.inFlight == s.inFlight)
            && forall g <- s.handlers :: t.handlers[g] == s.handlers[g]
  {
    AlwaysExclusive(actions);
  }

  /** A request is rejected exactly when another handler is running for its device. */
  lemma RejectedExactly(actions: seq<Action>, h: HandlerId)
    requires var s := Run(IDLE, actions); h in s.handlers && s.handlers[h].Found?
    ensures var s := Run(IDLE, actions);
            Next(s, Reserve(h)).handlers[h].Rejected? <==>
            exists g <- s.handlers :: s.handlers[g] == Running(s.handlers[h].name)
  {
    AlwaysExclusive(actions);
  }

  /** However a backup ends, its device can be reserved again at once. */
  lemma EndFreesTheDevice(actions: seq<Action>, h: HandlerId, g: HandlerId)
    requires var s := Run(IDLE, actions);
             h in s.handlers && s.handlers[h].Running? && g in s.handlers && s.handlers[g] == Found(s.handlers[h].name)
    ensures var s := Run(IDLE, actions);
            && Next(Next(s, Reserve(g)), End(h)).handlers[g].Rejected?
            && Next(Next(s, End(h)), Reserve(g)).handlers[g].Running?
  {
    AlwaysExclusive(actions);
  }

  /** When no handler runs, nothing is reserved. */
  lemma QuietMeansFree(actions: seq<Action>)
    requires forall h <- Run(IDLE, actions).handlers :: !Run(IDLE, actions).handlers[h].Running?
    ensures Run(IDLE, actions).inFlight == {}
  {
    AlwaysExclusive(actions);
  }
}
