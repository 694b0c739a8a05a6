/** Whole runs of a loaded manager: requests of all keys on all paths, with overrides. */
module ManagerRuns {
  import opened Common
  import opened FixedWindow
  import opened LimiterRuns
  import opened OverrideRuns
  import opened RateLimitManager
  import opened RoutePattern

  /** The override answers, by key and pattern; they do not change during a run. */
  type Overrides = map<(string, string), seq<WindowConfig>>

  function Fetched(overrides: Overrides, key: string, text: string): Option<seq<WindowConfig>> {
    if (key, text) in overrides then Some(overrides[(key, text)]) else None
  }

  /** The answer the manager gets for one request, if it asks. */
  function FetchedFor(overrides: Overrides, ps: seq<Pattern>, c: Visit): Option<seq<WindowConfig>> {
    if RouteOf(ps, c).To? then Fetched(overrides, c.key, ps[RouteOf(ps, c).i].text) else None
  }

  predicate IsAt(ps: seq<Pattern>, c: Visit, i: nat, key: string) {
    RouteOf(ps, c) == To(i) && c.key == key
  }

  /** In a run of requests, what happens to those of one key that reach limiter `i`. */
  function EventsAt(ps: seq<Pattern>, cfgs: seq<seq<WindowConfig>>, views: seq<View>, mode: Mode, run: seq<Visit>,
                    overrides: Overrides, i: nat, key: string): seq<Event>
    requires |ps| == |cfgs| == |views| && i < |ps|
    decreases |run|
  {
    if run == [] then []
    else
      var c, fetched := run[0], FetchedFor(overrides, ps, run[0]);
      var next := AllowVisit(ps, cfgs, views, mode, c, fetched).0;
      (if IsAt(ps, c, i, key) then [Event(c.now, ServeView(views[i], cfgs[i], c, fetched).1)] else [])
      + EventsAt(ps, cfgs, next, mode, run[1..], overrides, i, key)
  }

  function AttemptsAt(ps: seq<Pattern>, run: seq<Visit>, i: nat, key: string): seq<Attempt> {
    if run == [] then []
    else (if IsAt(ps, run[0], i, key) then [Attempt(run[0].now, run[0].later)] else [])
         + AttemptsAt(ps, run[1..], i, key)
  }

  /** One request changes the windows of its own key at its own limiter only. */
  lemma VisitOfWindows(ps: seq<Pattern>, cfgs: seq<seq<WindowConfig>>, views: seq<View>, mode: Mode,
                                          c: Visit, fetched: Option<seq<WindowConfig>>, i: nat, key: string)
    requires |ps| == |cfgs| == |views| && i < |ps|
    ensures var ws := WindowsOf(views[i], key, cfgs[i]);
            WindowsOf(AllowVisit(ps, cfgs, views, mode, c, fetched).0[i], key, cfgs[i]) ==
            if IsAt(ps, c, i, key) then Serve(ws, c.now, c.later, fetched).0 else ws
  {}

  /** Each key is served at each limiter as if it were alone there. */
  lemma {:induction false} EachKeyAlone(ps: seq<Pattern>, cfgs: seq<seq<WindowConfig>>, views: seq<View>, mode: Mode,
                                        run: seq<Visit>, overrides: Overrides, i: nat, key: string)
    requires |ps| == |cfgs| == |views| && i < |ps|
    ensures EventsAt(ps, cfgs, views, mode, run, overrides, i, key) ==
            Events(WindowsOf(views[i], key, cfgs[i]), AttemptsAt(ps, run, i, key), Fetched(overrides, key, ps[i].text))
    decreases |run|
  {
    if run != [] {
      var c, fetched := run[0], FetchedFor(overrides, ps, run[0]);
      var next := AllowVisit(ps, cfgs, views, mode, c, fetched).0;
      VisitOfWindows(ps, cfgs, views, mode, c, fetched, i, key);
      EachKeyAlone(ps, cfgs, next, mode, run[1..], overrides, i, key);
      if IsAt(ps, c, i, key) {
        assert AttemptsAt(ps, run, i, key)[1..] == AttemptsAt(ps, run[1..], i, key);
      } else {
        assert AttemptsAt(ps, run, i, key) == AttemptsAt(ps, run[1..], i, key);
      }
    }
  }

  /** From any state of a manager, a whole run lets through at most one uncounted request per key
      and pattern. */
  lemma AtMostOneUncountedPerKey(ps: seq<Pattern>, cfgs: seq<seq<WindowConfig>>, views: seq<View>,
                                                    mode: Mode, run: seq<Visit>, overrides: Overrides, i: nat, key: string)
    requires |ps| == |cfgs| == |views| && i < |ps|
    ensures CountOf(EventsAt(ps, cfgs, views, mode, run, overrides, i, key), Uncounted) <= 1
  {
    var ws, attempts := WindowsOf(views[i], key, cfgs[i]), AttemptsAt(ps, run, i, key);
    EachKeyAlone(ps, cfgs, views, mode, run, overrides, i, key);
    EventsCount(ws, attempts, Fetched(overrides, key, ps[i].text), Uncounted);
    AtMostOneUncounted(ws, attempts, Fetched(overrides, key, ps[i].text));
  }

  /** A newly loaded manager keeps every window of a key without override below twice its limit,
      whatever else it serves. */
  lemma LoadedManagerKeepsLimits(ps: seq<Pattern>, cfgs: seq<seq<WindowConfig>>, mode: Mode,
                                                    run: seq<Visit>, overrides: Overrides, i: nat, key: string, w: nat, lo: int)
    requires |ps| == |cfgs| && i < |ps| && w < |cfgs[i]|
    requires (key, ps[i].text) !in overrides
    requires NonDecreasing(Times(AttemptsAt(ps, run, i, key))) && AllFrom(Times(AttemptsAt(ps, run, i, key)), MAX_DURATION)
    ensures CountedIn(EventsAt(ps, cfgs, NoWindows(|ps|), mode, run, overrides, i, key), lo, lo + cfgs[i][w].duration)
            <= Cap(cfgs[i][w].limit)
  {
    var attempts := AttemptsAt(ps, run, i, key);
    EachKeyAlone(ps, cfgs, NoWindows(|ps|), mode, run, overrides, i, key);
    EventsAdmitted(FreshWindows(cfgs[i]), attempts, lo, lo + cfgs[i][w].duration);
    LessThanTwiceTheLimit(cfgs[i], Times(attempts), w, lo);
  }

  // ---------- when overrides take effect ----------

  /** The windows of all limiters after a run of requests. */
  function ViewsAfter(ps: seq<Pattern>, cfgs: seq<seq<WindowConfig>>, views: seq<View>, mode: Mode, run: seq<Visit>,
                      overrides: Overrides): (r: seq<View>)
    requires |ps| == |cfgs| == |views|
    ensures |r| == |views|
    decreases |run|
  {
    if run == [] then views
    else
      var next := AllowVisit(ps, cfgs, views, mode, run[0], FetchedFor(overrides, ps, run[0])).0;
      ViewsAfter(ps, cfgs, next, mode, run[1..], overrides)
  }

  /** A run leaves the windows of a key as its own requests leave them. */
  lemma {:induction false} WindowsAfterRun(ps: seq<Pattern>, cfgs: seq<seq<WindowConfig>>, views: seq<View>, mode: Mode,
                                           run: seq<Visit>, overrides: Overrides, i: nat, key: string)
    requires |ps| == |cfgs| == |views| && i < |ps|
    ensures WindowsOf(ViewsAfter(ps, cfgs, views, mode, run, overrides)[i], key, cfgs[i]) ==
            ServedAfter(WindowsOf(views[i], key, cfgs[i]), AttemptsAt(ps, run, i, key), Fetched(overrides, key, ps[i].text))
    decreases |run|
  {
    if run != [] {
      var c, fetched := run[0], FetchedFor(overrides, ps, run[0]);
      var next := AllowVisit(ps, cfgs, views, mode, c, fetched).0;
      VisitOfWindows(ps, cfgs, views, mode, c, fetched, i, key);
      WindowsAfterRun(ps, cfgs, next, mode, run[1..], overrides, i, key);
      if IsAt(ps, c, i, key) {
        assert AttemptsAt(ps, run, i, key)[1..] == AttemptsAt(ps, run[1..], i, key);
      } else {
        assert AttemptsAt(ps, run, i, key) == AttemptsAt(ps, run[1..], i, key);
      }
    }
  }

  /** In a loaded manager the windows of an overridden key have the configured limits and durations
      until a request of the key is refused by its round, and those of the overrides from then on. */
  lemma OverridesTakeEffect(ps: seq<Pattern>, cfgs: seq<seq<WindowConfig>>, mode: Mode, run: seq<Visit>,
                            overrides: Overrides, i: nat, key: string, w: nat)
    requires |ps| == |cfgs| && i < |ps| && w < |cfgs[i]| && (key, ps[i].text) in overrides
    ensures var after := ViewsAfter(ps, cfgs, NoWindows(|ps|), mode, run, overrides);
            var ws := WindowsOf(after[i], key, cfgs[i]);
            |ws| == |cfgs[i]| &&
            WindowConfig(ws[w].limit, ws[w].duration) ==
            if AllCounted(EventsAt(ps, cfgs, NoWindows(|ps|), mode, run, overrides, i, key)) then cfgs[i][w]
            else ConfigUnder(FreshWindow(cfgs[i][w]), overrides[(key, ps[i].text)], w)
  {
    WindowsAfterRun(ps, cfgs, NoWindows(|ps|), mode, run, overrides, i, key);
    EachKeyAlone(ps, cfgs, NoWindows(|ps|), mode, run, overrides, i, key);
    ConfigInForce(FreshWindows(cfgs[i]), AttemptsAt(ps, run, i, key), overrides[(key, ps[i].text)], w);
  }

  /** Whether the next request of a key is refused, from the counts of its windows alone: in
      enforcing mode, when a round refuses it and no override answer leaves room in every window. */
  lemma RefusedIff(ps: seq<Pattern>, cfgs: seq<seq<WindowConfig>>, views: seq<View>, mode: Mode, c: Visit,
                   overrides: Overrides, i: nat)
    requires |ps| == |cfgs| == |views| && RouteOf(ps, c) == To(i)
    ensures var ws := WindowsOf(views[i], c.key, cfgs[i]);
            var (round, a) := AllowAll(ws, c.now);
            var fetched := Fetched(overrides, c.key, ps[i].text);
            var v := AllowVisit(ps, cfgs, views, mode, c, FetchedFor(overrides, ps, c)).1;
            v != Crashed && (Reply(v).0 ==> Reply(v).1 == 0) &&
            (!Reply(v).0 <==>
               && mode == Enforcing && !a.ok
               && !(fetched.Some? &&
                    forall k :: 0 <= k < |ws| ==> round[k].requests < ConfigUnder(ws[k], fetched.value, k).limit))
  {
    OutcomeMeaning(WindowsOf(views[i], c.key, cfgs[i]), c.now, c.later, Fetched(overrides, c.key, ps[i].text));
  }
}
