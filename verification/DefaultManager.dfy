/**
 The process-wide session manager, addons/auth/session.go: DefaultSessions builds it lazily
 behind a double-checked read-write lock while Configure may install another one.  Any number
 of calls interleave; every lock operation, read and write is a step of its own.
 */
module DefaultManager {
  import opened Text

  /** A manager's identity. */
  type Manager = nat
  type Call = nat

  /** Where a call stands. */
  datatype Pc =
    | Start
    | Reading                          // DefaultSessions holds the read lock
    | HasRead(seen: Option<Manager>)   // it has released the read lock
    | Writing                          // it holds the write lock and has not looked yet
    | Making                           // it found no manager and is about to build one
    | Leaving(result: Option<Manager>) // it is about to release the write lock
    | Installing(made: Manager)        // Configure has built its manager
    | Replacing(made: Manager)         // Configure holds the write lock
    | Done(result: Option<Manager>)

  datatype State = State(
    manager: Option<Manager>,
    readers: set<Call>,
    writer: Option<Call>,
    calls: map<Call, Pc>,
    managers: set<Manager>,
    built: nat)                        // managers DefaultSessions has built so far

  function At(s: State, c: Call): Pc {
    if c in s.calls then s.calls[c] else Start
  }

  function Move(s: State, c: Call, pc: Pc): State {
    s.(calls := s.calls[c := pc])
  }

  /** The result of New: a manager no one has seen before, or an error. */
  predicate Fresh(s: State, made: Option<Manager>) {
    made.Some? ==> made.value !in s.managers
  }

  function Allocate(s: State, made: Option<Manager>): State {
    if made.Some? then s.(managers := s.managers + {made.value}) else s
  }

  datatype Action =
    | RLock | ReadAndUnlock | ReturnSeen | Lock | Check | Make(made: Option<Manager>) | Unlock
    | ConfigureNew(made: Option<Manager>) | ConfigureLock | ConfigureStore

  predicate IsConfigure(a: Action) {
    a.ConfigureNew? || a.ConfigureLock? || a.ConfigureStore?
  }

  predicate Enabled(s: State, c: Call, a: Action) {
    match a
    case RLock => At(s, c).Start? && s.writer.None?
    case ReadAndUnlock => At(s, c).Reading?
    case ReturnSeen => At(s, c).HasRead? && At(s, c).seen.Some?
    case Lock => At(s, c) == HasRead(None) && s.writer.None? && s.readers == {}
    case Check => At(s, c).Writing?
    case Make(made) => At(s, c).Making? && Fresh(s, made)
    case Unlock => At(s, c).Leaving?
    case ConfigureNew(made) => At(s, c).Start? && Fresh(s, made)
    case ConfigureLock => At(s, c).Installing? && s.writer.None? && s.readers == {}
    case ConfigureStore => At(s, c).Replacing?
  }

  function Next(s: State, c: Call, a: Action): State
    requires Enabled(s, c, a)
  {
    match a
    case RLock => Move(s, c, Reading).(readers := s.readers + {c})
    case ReadAndUnlock => Move(s, c, HasRead(s.manager)).(readers := s.readers - {c})
    case ReturnSeen => Move(s, c, Done(At(s, c).seen))
    case Lock => Move(s, c, Writing).(writer := Some(c))
    case Check => Move(s, c, if s.manager.Some? then Leaving(s.manager) else Making)
    case Make(made) =>
      Move(Allocate(s, made), c, Leaving(made)).(manager := made, built := s.built + if made.Some? then 1 else 0)
    case Unlock => Move(s, c, Done(At(s, c).result)).(writer := None)
    case ConfigureNew(made) =>
      Move(Allocate(s, made), c, if made.Some? then Installing(made.value) else Done(None))
    case ConfigureLock => Move(s, c, Replacing(At(s, c).made)).(writer := Some(c))
    case ConfigureStore => Move(s, c, Leaving(Some(At(s, c).made))).(manager := Some(At(s, c).made))
  }

  const INITIAL := State(None, {}, None, map[], {}, 0)

  ghost predicate IsRun(states: seq<State>, calls: seq<Call>, actions: seq<Action>) {
    && |states| == |actions| + 1 && |calls| == |actions|
    && states[0] == INITIAL
    && (forall i | 0 <= i < |actions| ::
          Enabled(states[i], calls[i], actions[i]) && states[i + 1] == Next(states[i], calls[i], actions[i]))
  }

  predicate HoldsWrite(pc: Pc) {
    pc.Writing? || pc.Making? || pc.Leaving? || pc.Replacing?
  }

  /** Lock discipline, and the fact the second check establishes: whoever is Making sees no manager. */
  ghost predicate Inv(s: State) {
    && (forall c: Call :: HoldsWrite(At(s, c)) <==> s.writer == Some(c))
    && (forall c: Call :: At(s, c).Reading? <==> c in s.readers)
    && (s.writer.Some? ==> s.readers == {})
    && (forall c: Call | At(s, c).Making? :: s.manager.None?)
  }

  lemma NextInv(s: State, c: Call, a: Action)
    requires Inv(s) && Enabled(s, c, a)
    ensures Inv(Next(s, c, a))
  {
    var t := Next(s, c, a);
    forall d: Call
      ensures At(t, d) == if d == c then At(t, c) else At(s, d)
    {
    }
  }

  lemma {:induction false} RunInv(states: seq<State>, calls: seq<Call>, actions: seq<Action>, i: nat)
    requires IsRun(states, calls, actions) && i < |states|
    ensures Inv(states[i])
  {
    if i > 0 {
      RunInv(states, calls, actions, i - 1);
      NextInv(states[i - 1], calls[i - 1], actions[i - 1]);
    }
  }

  /** In every interleaving, no step of DefaultSessions ever replaces a manager that is in place. */
  lemma NeverReplaced(states: seq<State>, calls: seq<Call>, actions: seq<Action>, i: nat)
    requires IsRun(states, calls, actions) && i < |actions| && !IsConfigure(actions[i])
    requires states[i].manager.Some?
    ensures states[i + 1].manager == states[i].manager
  {
    RunInv(states, calls, actions, i);
  }

  /** What a call has learned about the manager, if anything. */
  function Learned(pc: Pc): Option<Manager> {
    match pc
    case HasRead(m) => m
    case Leaving(m) => m
    case Done(m) => m
    case _ => None
  }

  ghost predicate Single(s: State) {
    && s.built == (if s.manager.Some? then 1 else 0)
    && (forall c: Call :: !At(s, c).Installing? && !At(s, c).Replacing?)
    && (forall c: Call | Learned(At(s, c)).Some? :: Learned(At(s, c)) == s.manager)
  }

  lemma {:induction false} RunSingle(states: seq<State>, calls: seq<Call>, actions: seq<Action>, i: nat)
    requires IsRun(states, calls, actions) && i < |states|
    requires forall k | 0 <= k < |actions| :: !IsConfigure(actions[k])
    ensures Single(states[i])
  {
    if i > 0 {
      RunSingle(states, calls, actions, i - 1);
      RunInv(states, calls, actions, i - 1);
      var s, t, c := states[i - 1], states[i], calls[i - 1];
      assert !IsConfigure(actions[i - 1]);
      forall d: Call
        ensures At(t, d) == if d == c then At(t, c) else At(s, d)
      {
      }
    }
  }

  /**
   Without Configure, lazy construction succeeds at most once and every successful caller, at
   whatever points of the run two of them finish, returns the same manager.
   */
  lemma BuiltOnce(states: seq<State>, calls: seq<Call>, actions: seq<Action>, i: nat, j: nat, c: Call, d: Call)
    requires IsRun(states, calls, actions) && i <= j < |states|
    requires forall k | 0 <= k < |actions| :: !IsConfigure(actions[k])
    ensures states[j].built <= 1
    ensures At(states[i], c).Done? && At(states[i], c).result.Some? && At(states[j], d).Done? && At(states[j], d).result.Some? ==>
              At(states[i], c).result == At(states[j], d).result
  {
    RunSingle(states, calls, actions, i);
    RunSingle(states, calls, actions, j);
    if states[i].manager.Some? {
      ManagerStays(states, calls, actions, i, j);
    }
  }

  lemma {:induction false} ManagerStays(states: seq<State>, calls: seq<Call>, actions: seq<Action>, i: nat, j: nat)
    requires IsRun(states, calls, actions) && i <= j < |states|
    requires forall k | 0 <= k < |actions| :: !IsConfigure(actions[k])
    requires states[i].manager.Some?
    ensures states[j].manager == states[i].manager
    decreases j
  {
    if i < j {
      ManagerStays(states, calls, actions, i, j - 1);
      NeverReplaced(states, calls, actions, j - 1);
    }
  }

  // --------------------------------------------------------------- every call can end

  /** How many steps a call has ahead of it at most. */
  function Ahead(pc: Pc): nat {
    match pc
    case Start => 7
    case Reading => 6
    case HasRead(_) => 5
    case Installing(_) => 5
    case Writing => 4
    case Making => 3
    case Replacing(_) => 3
    case Leaving(_) => 2
    case Done(_) => 0
  }

  predicate Under(pc: Pc) {
    !pc.Start? && !pc.Done?
  }

  /** A step that some call under way, and in particular the holder of a lock, can always take. */
  lemma StepFor(s: State, c: Call) returns (d: Call, a: Action)
    requires Inv(s) && Under(At(s, c))
    ensures Under(At(s, d)) && Enabled(s, d, a)
  {
    if s.writer.Some? {
      d := s.writer.value;
      var pc := At(s, d);
      assert HoldsWrite(pc);
      a := if pc.Writing? then Check else if pc.Making? then Make(None) else if pc.Leaving? then Unlock else ConfigureStore;
    } else if s.readers != {} {
      d :| d in s.readers;
      a := ReadAndUnlock;
    } else {
      d := c;
      var pc := At(s, c);
      assert !HoldsWrite(pc);
      a := if pc.Installing? then ConfigureLock else if pc.seen.Some? then ReturnSeen else Lock;
    }
  }

  /**
   No deadlock: whenever a call is under way in a run, some call under way can take a step, and
   every step brings the call that takes it nearer its end and leaves the others where they are.
   */
  lemma NoDeadlock(states: seq<State>, calls: seq<Call>, actions: seq<Action>, i: nat, c: Call)
    requires IsRun(states, calls, actions) && i < |states| && Under(At(states[i], c))
    ensures exists d, a :: Under(At(states[i], d)) && Enabled(states[i], d, a)
    ensures forall d, a | Enabled(states[i], d, a) ::
              && Ahead(At(Next(states[i], d, a), d)) < Ahead(At(states[i], d))
              && forall e | e != d :: At(Next(states[i], d, a), e) == At(states[i], e)
  {
    hide IsRun, Enabled, Next, Ahead, Inv, Under;
    RunInv(states, calls, actions, i);
    var d, a := StepFor(states[i], c);
    forall d, a | Enabled(states[i], d, a)
      ensures Ahead(At(Next(states[i], d, a), d)) < Ahead(At(states[i], d))
      ensures forall e | e != d :: At(Next(states[i], d, a), e) == At(states[i], e)
    {
      StepAhead(states[i], d, a);
    }
  }

  lemma StepAhead(s: State, c: Call, a: Action)
    requires Enabled(s, c, a)
    ensures Ahead(At(Next(s, c, a), c)) < Ahead(At(s, c))
    ensures forall e | e != c :: At(Next(s, c, a), e) == At(s, e)
  {
  }
}
