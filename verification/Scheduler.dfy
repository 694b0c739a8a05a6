/** The scheduler that follows live configurations: adding jobs, starting, and the periodic
    reconciliation of the schedule with fresh configurations. */
module Scheduler {
  import opened Common

  datatype Config = Config(uniqueName: string, enabled: bool, interval: int, cronExpression: string,
                           runOnStart: bool, timeout: int)

  const ZERO_CONFIG := Config("", false, 0, "", false, 0)

  datatype Trigger = Cron(expression: string) | Simple(interval: int)

  /** A cron expression has precedence over the interval. */
  function TriggerOf(c: Config): Trigger {
    if c.cronExpression != "" then Cron(c.cronExpression) else Simple(c.interval)
  }

  // ---------- one job ----------

  /** A job as the scheduler sees it: its trigger, whether it is scheduled, and the configuration
      remembered from the last tick. */
  datatype JobState = JobState(trigger: Trigger, scheduled: bool, remembered: Option<Config>)

  /** A failed fetch leaves the zero configuration in the variable that is used. */
  function Effective(fetched: Option<Config>): Config {
    if fetched.Some? then fetched.value else ZERO_CONFIG
  }

  function TickJob(s: JobState, fetched: Option<Config>): JobState {
    var c := Effective(fetched);
    if s.remembered.None? then JobState(TriggerOf(c), c.enabled, Some(c))
    else
      var old_ := s.remembered.value;
      if old_.enabled != c.enabled then s.(scheduled := c.enabled, remembered := Some(c))
      else if old_.interval != c.interval then s.(trigger := TriggerOf(c), remembered := Some(c))
      else s.(remembered := Some(c))
  }

  function RunJob(s: JobState, run: seq<Option<Config>>): JobState
    decreases |run|
  {
    if run == [] then s else RunJob(TickJob(s, run[0]), run[1..])
  }

  predicate InSync(s: JobState) {
    s.remembered.Some? ==> (s.scheduled <==> s.remembered.value.enabled)
  }

  lemma {:induction false} RunKeepsSync(s: JobState, run: seq<Option<Config>>)
    requires InSync(s)
    ensures InSync(RunJob(s, run))
    ensures run != [] ==> RunJob(s, run).remembered == Some(Effective(run[|run| - 1]))
    decreases |run|
  {
    if run != [] {
      RunKeepsSync(TickJob(s, run[0]), run[1..]);
      assert |run| == 1 ==> RunJob(s, run) == TickJob(s, run[0]);
    }
  }

  /** After every run of ticks a job is scheduled exactly when the last configuration fetched for
      it is enabled; a failed fetch takes it off the schedule. */
  lemma ScheduledIffLastEnabled(s: JobState, run: seq<Option<Config>>)
    requires InSync(s) && run != []
    ensures var last := run[|run| - 1];
            RunJob(s, run).scheduled <==> last.Some? && last.value.enabled
  {
    RunKeepsSync(s, run);
  }

  /** After a tick the schedule agrees with the live configurations: a known job is scheduled
      exactly when its configuration could be fetched and is enabled. */
  lemma TickAgreesWithConfig(s: JobState, fetched: Option<Config>)
    requires InSync(s)
    ensures TickJob(s, fetched).scheduled <==> fetched.Some? && fetched.value.enabled
    ensures InSync(TickJob(s, fetched)) && TickJob(s, fetched).remembered.Some?
  {}

  // ---------- triggers ----------

  predicate TriggerFollows(s: JobState) {
    s.remembered.Some? ==> s.trigger == TriggerOf(s.remembered.value)
  }

  /** A change that makes a tick set the trigger: the interval changes while the job is neither
      switched on nor off. */
  predicate SetsTrigger(old_: Config, c: Config) {
    old_.enabled == c.enabled && old_.interval != c.interval
  }

  /** The trigger follows the cron expression, and the interval when there is none. */
  lemma TriggerMeaning(c: Config, expression: string, interval: int)
    ensures TriggerOf(c) == Cron(expression) <==> c.cronExpression == expression && expression != ""
    ensures TriggerOf(c) == Simple(interval) <==> c.cronExpression == "" && c.interval == interval
  {}

  /** From any state, a tick leaves the trigger right exactly when it sees the job for the first
      time, finds the trigger right already, or sets it. */
  lemma TriggerFollowsIff(s: JobState, fetched: Option<Config>)
    ensures TriggerFollows(TickJob(s, fetched)) <==>
              || s.remembered.None?
              || s.trigger == TriggerOf(Effective(fetched))
              || SetsTrigger(s.remembered.value, Effective(fetched))
    ensures TickJob(s, fetched).trigger == s.trigger || TriggerFollows(TickJob(s, fetched))
  {}

  /** A change of configuration that a right trigger keeps up with. */
  predicate Followable(old_: Config, c: Config) {
    TriggerOf(old_) == TriggerOf(c) || SetsTrigger(old_, c)
  }

  predicate FollowableRun(old_: Option<Config>, run: seq<Option<Config>>)
    decreases |run|
  {
    run != [] ==>
      && (old_.Some? ==> Followable(old_.value, Effective(run[0])))
      && FollowableRun(Some(Effective(run[0])), run[1..])
  }

  /** The trigger is right at the start of a run and after each of its ticks. */
  ghost predicate AlwaysFollows(s: JobState, run: seq<Option<Config>>) {
    forall k {:trigger run[..k]} :: 0 <= k <= |run| ==> TriggerFollows(RunJob(s, run[..k]))
  }

  lemma AlwaysFollowsFromHere(s: JobState, run: seq<Option<Config>>)
    requires run != []
    ensures AlwaysFollows(s, run) <==> TriggerFollows(s) && AlwaysFollows(TickJob(s, run[0]), run[1..])
  {
    var next, tail := TickJob(s, run[0]), run[1..];
    assert run[..0] == [];
    forall k | 0 <= k <= |tail| ensures RunJob(s, run[..k + 1]) == RunJob(next, tail[..k]) {
      assert run[..k + 1][1..] == tail[..k];
    }
    if TriggerFollows(s) && AlwaysFollows(next, tail) {
      forall k | 0 <= k <= |run| ensures TriggerFollows(RunJob(s, run[..k])) {
        if k > 0 {
          assert RunJob(s, run[..k - 1 + 1]) == RunJob(next, tail[..k - 1]);
        }
      }
    }
  }

  /** Over a run the trigger is right throughout exactly when it is right at the start and every
      change in the run is one that it keeps up with. */
  lemma {:induction false} TriggerFollowsRunIff(s: JobState, run: seq<Option<Config>>)
    ensures AlwaysFollows(s, run) <==> TriggerFollows(s) && FollowableRun(s.remembered, run)
    decreases |run|
  {
    if run == [] {
      assert run[..0] == run;
    } else {
      AlwaysFollowsFromHere(s, run);
      TriggerFollowsRunIff(TickJob(s, run[0]), run[1..]);
      TriggerFollowsIff(s, run[0]);
    }
  }

  /** A failed fetch between two intervals loses the change: the job runs again with the interval
      it had before. */
  lemma FailedFetchHidesNewInterval(c: Config, newInterval: int)
    requires c.enabled && c.cronExpression == "" && newInterval != c.interval
    ensures var before := JobState(TriggerOf(c), true, Some(c));
            var after := RunJob(before, [None, Some(c.(interval := newInterval))]);
            after.scheduled && after.trigger == Simple(c.interval) && !TriggerFollows(after)
  {
    var run := [None, Some(c.(interval := newInterval))];
    var before := JobState(TriggerOf(c), true, Some(c));
    var stopped := TickJob(before, None);
    assert run[1..] == [run[1]] && [run[1]][1..] == [];
    assert RunJob(stopped, [run[1]]) == TickJob(stopped, run[1]);
  }

  /** A failed fetch is remembered as a configuration with nothing set: the job is off the schedule,
      and one that was not known before gets a trigger without any interval. */
  lemma FailedFetchIsRemembered(s: JobState)
    ensures var after := TickJob(s, None);
            && after.remembered == Some(Config("", false, 0, "", false, 0))
            && (s.remembered.None? ==> after.trigger == Simple(0) && !after.scheduled)
  {}

  // ---------- all jobs ----------

  function AnswerFor(answers: map<string, Option<Config>>, key: string): Option<Config> {
    if key in answers then answers[key] else None
  }

  class Job {
    const key: string
    var trigger: Trigger

    constructor (name: string, c: Config)
      ensures key == name && trigger == TriggerOf(c)
    {
      key, trigger := name, TriggerOf(c);
    }
  }

  /** The last job of every key. */
  ghost function LastOfKeys(js: seq<Job>): map<string, Job> {
    if js == [] then map[]
    else
      var last := js[|js| - 1];
      LastOfKeys(js[..|js| - 1])[last.key := last]
  }

  /** Job `j` is the last one of its key. */
  ghost predicate IsLastOfKey(js: seq<Job>, j: nat) {
    j < |js| && forall l :: j < l < |js| ==> js[l].key != js[j].key
  }

  lemma {:induction false} LastOfKeysMeaning(js: seq<Job>)
    ensures forall k :: k in LastOfKeys(js) <==> exists j :: 0 <= j < |js| && js[j].key == k
    ensures forall j: nat {:trigger IsLastOfKey(js, j)} :: IsLastOfKey(js, j) ==> LastOfKeys(js)[js[j].key] == js[j]
  {
    if js != [] {
      var front := js[..|js| - 1];
      LastOfKeysMeaning(front);
      forall k ensures k in LastOfKeys(js) <==> exists j :: 0 <= j < |js| && js[j].key == k {
        if k in LastOfKeys(front) {
          var j :| 0 <= j < |front| && front[j].key == k;
          assert js[j].key == k;
        }
      }
      forall j: nat | IsLastOfKey(js, j) ensures js[j].key in LastOfKeys(js) && LastOfKeys(js)[js[j].key] == js[j] {
        if j < |js| - 1 {
          assert front[j] == js[j] && IsLastOfKey(front, j);
        }
      }
    }
  }

  class Scheduler {
    var isRunning: bool
    var collected: seq<Job>
    var jobs: map<string, Job>
    var oldConfigs: map<string, Config>
    var scheduled: map<string, Job>  // what the underlying scheduler holds

    ghost predicate Valid()
      reads this
    {
      && (forall k :: k in jobs ==> jobs[k].key == k)
      && (forall k :: k in scheduled ==> k in jobs && scheduled[k] == jobs[k])
      && oldConfigs.Keys <= jobs.Keys
      && (forall k :: k in oldConfigs ==> (k in scheduled <==> oldConfigs[k].enabled))
      && (!isRunning ==> jobs == map[])
    }

    ghost function Triggers(): set<object>
      reads this
    {
      set k | k in jobs :: jobs[k]
    }

    ghost function StateOf(k: string): JobState
      requires k in jobs
      reads this, if k in jobs then {jobs[k]} else {}
    {
      JobState(jobs[k].trigger, k in scheduled, if k in oldConfigs then Some(oldConfigs[k]) else None)
    }

    constructor ()
      ensures Valid() && !isRunning && collected == []
    {
      isRunning, collected, jobs, oldConfigs, scheduled := false, [], map[], map[], map[];
    }

    /** `Add`: jobs whose configuration cannot be read are refused, disabled ones are dropped. */
    method Add(job: Job, fetched: Option<Config>) returns (ok: bool)
      requires Valid()
      modifies this`collected
      ensures Valid()
      ensures ok <==> !isRunning && fetched.Some?
      ensures collected == if ok && fetched.value.enabled then old(collected) + [job] else old(collected)
    {
      if isRunning || fetched.None? {
        return false;
      }
      if !fetched.value.enabled {
        return true;
      }
      collected := collected + [job];
      return true;
    }

    /** `stopScheduling`; a job that is not scheduled is not an error. */
    method StopScheduling(job: Job)
      modifies this`scheduled
      ensures scheduled == old(scheduled) - {job.key}
    {
      scheduled := scheduled - {job.key};
    }

    /** `scheduleSilently`. */
    method ScheduleSilently(job: Job)
      modifies this`scheduled, this`jobs
      ensures scheduled == old(scheduled)[job.key := job] && jobs == old(jobs)[job.key := job]
    {
      StopScheduling(job);
      jobs := jobs[job.key := job];
      scheduled := scheduled[job.key := job];
    }

    /** `Start`: no job is known before it, so nothing is remembered; then the collected jobs
        themselves are scheduled, the last one of each key, with the triggers they have. */
    method Start()
      requires Valid() && !isRunning
      modifies this`isRunning, this`oldConfigs, this`jobs, this`scheduled
      ensures Valid() && isRunning && oldConfigs == map[]
      ensures jobs == scheduled == LastOfKeys(collected)
      ensures forall j :: j in collected ==> j.trigger == old(j.trigger)
    {
      isRunning := true;
      oldConfigs := map[];
      assert scheduled == map[];
      var i := 0;
      while i < |collected|
        invariant 0 <= i <= |collected|
        invariant isRunning && Valid() && oldConfigs == map[]
        invariant jobs == scheduled == LastOfKeys(collected[..i])
      {
        assert collected[..i + 1][..i] == collected[..i];
        ScheduleSilently(collected[i]);
        i := i + 1;
      }
      assert collected[..i] == collected;
    }

    /** The tick's work for one job. */
    method Reconcile(job: Job, fetched: Option<Config>)
      requires Valid() && isRunning && job.key in jobs && jobs[job.key] == job
      modifies this`oldConfigs, this`jobs, this`scheduled, job
      ensures Valid() && jobs == old(jobs) && job.key in oldConfigs
      ensures StateOf(job.key) == TickJob(old(StateOf(job.key)), fetched)
      ensures forall k {:trigger StateOf(k)} :: k in jobs && k != job.key ==> StateOf(k) == old(StateOf(k))
    {
      var newConfig := if fetched.Some? then fetched.value else ZERO_CONFIG;
      var known := job.key in oldConfigs;
      var oldConfig := if known then oldConfigs[job.key] else ZERO_CONFIG;
      oldConfigs := oldConfigs[job.key := newConfig];
      if !known {
        job.trigger := TriggerOf(newConfig);
        if newConfig.enabled {
          ScheduleSilently(job);
        } else {
          StopScheduling(job);
        }
      } else if oldConfig == newConfig {
        // nothing changed
      } else if oldConfig.enabled != newConfig.enabled {
        if newConfig.enabled {
          ScheduleSilently(job);
        } else {
          StopScheduling(job);
        }
      } else if oldConfig.interval != newConfig.interval {
        job.trigger := TriggerOf(newConfig);
      }
      assert jobs == old(jobs);
    }

    /** Every job has taken its tick, except those that are left. */
    ghost predicate Ticked(was: map<string, JobState>, answers: map<string, Option<Config>>, left: set<string>)
      requires jobs.Keys <= was.Keys
      reads this, Triggers()
    {
      forall k {:trigger StateOf(k)} :: k in jobs ==>
        StateOf(k) == if k in left then was[k] else TickJob(was[k], AnswerFor(answers, k))
    }

    /** One tick visits every known job, in an arbitrary order; a job
        without an answer could not be read. */
    method Tick(answers: map<string, Option<Config>>)
      requires Valid() && isRunning
      modifies this`oldConfigs, this`jobs, this`scheduled, Triggers()
      ensures Valid() && jobs == old(jobs)
      ensures forall k {:trigger StateOf(k)} :: k in jobs ==> StateOf(k) == TickJob(old(StateOf(k)), AnswerFor(answers, k))
      ensures forall k {:trigger AnswerFor(answers, k)} ::
                k in jobs ==> (k in scheduled <==> k in answers && answers[k].Some? && answers[k].value.enabled)
    {
      hide TickJob;
      ghost var was := map k | k in jobs :: StateOf(k);
      var left := jobs.Keys;
      while left != {}
        invariant left <= jobs.Keys && Valid() && isRunning && jobs == old(jobs)
        invariant Ticked(was, answers, left)
        decreases |left|
      {
        var key :| key in left;
        left := left - {key};
        Reconcile(jobs[key], AnswerFor(answers, key));
      }
      forall k | k in jobs
        ensures StateOf(k) == TickJob(old(StateOf(k)), AnswerFor(answers, k))
        ensures k in scheduled <==> AnswerFor(answers, k).Some? && AnswerFor(answers, k).value.enabled
      {
        TickAgreesWithConfig(was[k], AnswerFor(answers, k));
      }
    }
  }

  /** A job that is added while enabled, and then started, is the one that is scheduled, with the
      trigger it was added with. */
  method AddAndStart(s: Scheduler, job: Job, c: Config) returns (ok: bool)
    requires s.Valid() && !s.isRunning && c.enabled
    modifies s
    ensures s.Valid() && ok && job.key in s.scheduled && s.scheduled[job.key] == job
    ensures s.StateOf(job.key) == JobState(old(job.trigger), true, None)
  {
    ok := s.Add(job, Some(c));
    s.Start();
    assert IsLastOfKey(s.collected, |s.collected| - 1);
    LastOfKeysMeaning(s.collected);
  }
}
