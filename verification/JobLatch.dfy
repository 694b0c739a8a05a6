/** The latch that bounds how many executions of one job run at the same time. Each update of the
    counter is atomic; the executions themselves interleave freely. */
module JobLatch {
  datatype Event = Enter(id: nat) | Leave(id: nat, panicked: bool)

  /** `running` are the executions between taking and releasing the latch; `alarms` counts reports
      of a non-positive counter. */
  datatype State = State(count: int, running: set<nat>, skipped: nat, left: nat, alarms: nat)

  const INITIAL := State(0, {}, 0, 0, 0)

  predicate CanRun(count: int, max: int) {
    count < max
  }

  /** Taking and releasing the latch, as functions of the counter. */
  function Taken(count: int, max: int): int {
    if CanRun(count, max) then count + 1 else count
  }

  function Released(count: int): int {
    if count <= 0 then 0 else count - 1
  }

  function Step(s: State, e: Event, max: int): State {
    match e
    case Enter(id) =>
      if CanRun(s.count, max) then s.(count := Taken(s.count, max), running := s.running + {id})
      else s.(skipped := s.skipped + 1)
    case Leave(id, panicked) =>
      State(Released(s.count), s.running - {id}, s.skipped, s.left + 1, if s.count <= 0 then s.alarms + 1 else s.alarms)
  }

  /** An execution enters under a new name and leaves once, if it has entered. */
  predicate Possible(s: State, e: Event) {
    match e
    case Enter(id) => id !in s.running
    case Leave(id, _) => id in s.running
  }

  function Run(s: State, events: seq<Event>, max: int): State
    decreases |events|
  {
    if events == [] then s else Run(Step(s, events[0], max), events[1..], max)
  }

  ghost predicate PossibleRun(s: State, events: seq<Event>, max: int)
    decreases |events|
  {
    events != [] ==> Possible(s, events[0]) && PossibleRun(Step(s, events[0], max), events[1..], max)
  }

  predicate Sound(s: State, max: int) {
    && s.count == |s.running|
    && 0 <= s.count && (s.count <= max || s.count == 0)
    && s.alarms == 0
  }

  function Entered(events: seq<Event>): nat {
    if events == [] then 0 else (if events[0].Enter? then 1 else 0) + Entered(events[1..])
  }

  lemma {:induction false} RunKeepsSound(s: State, events: seq<Event>, max: int)
    requires Sound(s, max) && PossibleRun(s, events, max)
    ensures Sound(Run(s, events, max), max)
    ensures var t := Run(s, events, max);
            t.count + t.skipped + t.left == s.count + s.skipped + s.left + Entered(events)
    decreases |events|
  {
    if events != [] {
      match events[0] {
        case Enter(id) => assert |s.running + {id}| == |s.running| + 1;
        case Leave(id, _) => assert |s.running - {id}| == |s.running| - 1;
      }
      RunKeepsSound(Step(s, events[0], max), events[1..], max);
    }
  }

  /** In every interleaving, panics included: the counter is the number of running executions, it
      never exceeds the maximum, no alarm is raised, and every execution is accounted for. */
  lemma LatchHolds(events: seq<Event>, max: int)
    requires PossibleRun(INITIAL, events, max)
    ensures var s := Run(INITIAL, events, max);
            && s.count == |s.running| && 0 <= s.count && (s.count <= max || s.count == 0)
            && s.alarms == 0
            && Entered(events) == s.count + s.skipped + s.left
  {
    RunKeepsSound(INITIAL, events, max);
  }

  lemma {:induction false} RunAppend(s: State, a: seq<Event>, b: seq<Event>, max: int)
    ensures Run(s, a + b, max) == Run(Run(s, a, max), b, max)
    ensures PossibleRun(s, a + b, max) <==> PossibleRun(s, a, max) && PossibleRun(Run(s, a, max), b, max)
    decreases |a|
  {
    if a == [] {
      assert a + b == b;
    } else {
      assert (a + b)[1..] == a[1..] + b;
      RunAppend(Step(s, a[0], max), a[1..], b, max);
    }
  }

  /** An execution is skipped exactly when it arrives while the maximum is running (or nothing may
      run at all). */
  lemma SkippedIffFull(events: seq<Event>, id: nat, max: int)
    requires PossibleRun(INITIAL, events + [Enter(id)], max)
    ensures var s := Run(INITIAL, events, max);
            Run(INITIAL, events + [Enter(id)], max).skipped == s.skipped + 1 <==> |s.running| >= max
  {
    RunAppend(INITIAL, events, [Enter(id)], max);
    LatchHolds(events, max);
    assert [Enter(id)][1..] == [];
    var s := Run(INITIAL, events, max);
    assert Run(s, [Enter(id)], max) == Step(s, Enter(id), max);
  }

  // ---------- the job ----------

  class InProcessJob {
    var runningCount: int
    const maxRunningCount: int

    constructor (max: int)
      ensures runningCount == INITIAL.count && maxRunningCount == max
    {
      runningCount, maxRunningCount := 0, max;
    }

    /** The update of `Execute` that attempts to take the latch. */
    method Take() returns (canRun: bool)
      modifies this
      ensures canRun == CanRun(old(runningCount), maxRunningCount)
      ensures runningCount == Taken(old(runningCount), maxRunningCount)
    {
      canRun := runningCount < maxRunningCount;
      if canRun {
        runningCount := runningCount + 1;
      }
    }

    /** The deferred update of `Execute`, which runs after a panic as well. */
    method Release(panicked: bool) returns (alarm: bool)
      modifies this
      ensures runningCount == Released(old(runningCount))
      ensures alarm <==> old(runningCount) <= 0
    {
      if runningCount <= 0 {
        runningCount := 0;
        return true;
      }
      runningCount := runningCount - 1;
      return false;
    }
  }
}
