/** One request of a key as the manager serves it, overrides included, and what a run of such
    requests lets through without counting it. */
module OverrideRuns {
  import opened Common
  import opened FixedWindow
  import opened LimiterRuns

  datatype Served = Counted | Uncounted | Denied(wait: Duration)

  /** Counted if the windows allow it; otherwise overrides, if any, are installed and the windows
      are asked again, at a possibly later time and without counting. */
  function Serve(ws: seq<WindowState>, now: int, later: int, fetched: Option<seq<WindowConfig>>): (seq<WindowState>, Served) {
    var (ws1, a) := AllowAll(ws, now);
    if a.ok then (ws1, Counted)
    else
      match fetched
      case None => (ws1, Denied(a.wait))
      case Some(overrides) =>
        var ws2 := Override(ws1, overrides);
        var b := WouldAllowAll(ws2, later);
        (ws2, if b.ok then Uncounted else Denied(b.wait))
  }

  /** A full window that denies a request at time `at`, and the wait it asks for: the rest of the
      window, which is positive exactly when the window ends later. */
  predicate IsDenialBy(w: WindowState, at: int, wait: Duration) {
    && w.requests >= w.limit && wait == Sub(w.start + w.duration, at)
    && (wait > 0 <==> at < w.start + w.duration)
    && (w.start <= at ==> (wait > 0 <==> !Expired(w, at)))
  }

  lemma {:induction false} FirstFull(ws: seq<WindowState>, at: int) returns (i: nat)
    requires !WouldAllowAll(ws, at).ok
    ensures i < |ws| && IsDenialBy(ws[i], at, WouldAllowAll(ws, at).wait)
    ensures forall j :: 0 <= j < i ==> ws[j].requests < ws[j].limit
  {
    if !WouldAllowOne(ws[0], at).ok {
      i := 0;
    } else {
      i := FirstFull(ws[1..], at);
      i := i + 1;
    }
  }

  /** Whatever the windows and overrides, a denial's wait is the rest of a full window. It is
      positive exactly when that window, with the duration now in force, ends later. */
  lemma DenialWait(ws: seq<WindowState>, now: int, later: int, fetched: Option<seq<WindowConfig>>)
    returns (i: nat)
    requires Serve(ws, now, later, fetched).1.Denied?
    ensures var (after, s) := Serve(ws, now, later, fetched);
            && i < |after| && IsDenialBy(after[i], if fetched.Some? then later else now, s.wait)
            && (fetched.Some? ==> forall j :: 0 <= j < i ==> after[j].requests < after[j].limit)
  {
    var after := Serve(ws, now, later, fetched).0;
    if fetched.Some? {
      i := FirstFull(after, later);
    } else {
      i := Refuser(ws, now);
      RoundOfWindow(ws, now, i);
    }
  }

  /** An override can shorten a full window so that it has ended already: then the wait is
      negative. */
  lemma OverrideDeniesWithoutWait(start: int)
    ensures Serve([WindowState(1, 100, 1, start)], start + 50, start + 50, Some([WindowConfig(1, 10)])).1 == Denied(-40)
  {
    var w := WindowState(1, 100, 1, start);
    SingleWindow(w, start + 50);
    assert Override([w], [WindowConfig(1, 10)]) == [WindowState(1, 10, 1, start)];
  }

  datatype Attempt = Attempt(now: int, later: int)

  /** How many requests of a run end as `s`, when the override answer is constant. */
  function Count(ws: seq<WindowState>, run: seq<Attempt>, fetched: Option<seq<WindowConfig>>, s: Served): nat
    decreases |run|
  {
    if run == [] then 0
    else
      var (next, r) := Serve(ws, run[0].now, run[0].later, fetched);
      (if r == s then 1 else 0) + Count(next, run[1..], fetched, s)
  }

  /** What happened to one request, and when. */
  datatype Event = Event(now: int, served: Served)

  function Events(ws: seq<WindowState>, run: seq<Attempt>, fetched: Option<seq<WindowConfig>>): seq<Event>
    decreases |run|
  {
    if run == [] then []
    else
      var (next, r) := Serve(ws, run[0].now, run[0].later, fetched);
      [Event(run[0].now, r)] + Events(next, run[1..], fetched)
  }

  function CountOf(es: seq<Event>, s: Served): nat {
    if es == [] then 0 else (if es[0].served == s then 1 else 0) + CountOf(es[1..], s)
  }

  /** How many events are counted requests in the interval [lo, hi). */
  function CountedIn(es: seq<Event>, lo: int, hi: int): nat {
    if es == [] then 0
    else (if es[0].served == Counted && lo <= es[0].now < hi then 1 else 0) + CountedIn(es[1..], lo, hi)
  }

  lemma {:induction false} EventsCount(ws: seq<WindowState>, run: seq<Attempt>, fetched: Option<seq<WindowConfig>>, s: Served)
    ensures CountOf(Events(ws, run, fetched), s) == Count(ws, run, fetched, s)
    decreases |run|
  {
    if run != [] {
      var next := Serve(ws, run[0].now, run[0].later, fetched).0;
      assert Events(ws, run, fetched)[1..] == Events(next, run[1..], fetched);
      EventsCount(next, run[1..], fetched, s);
    }
  }

  function Times(run: seq<Attempt>): seq<int> {
    seq(|run|, k requires 0 <= k < |run| => run[k].now)
  }

  /** Without overrides, serving requests is asking the windows. */
  lemma {:induction false} EventsAdmitted(ws: seq<WindowState>, run: seq<Attempt>, lo: int, hi: int)
    ensures CountedIn(Events(ws, run, None), lo, hi) == Admitted(ws, Times(run), lo, hi)
    decreases |run|
  {
    if run != [] {
      var next := Serve(ws, run[0].now, run[0].later, None).0;
      assert Events(ws, run, None)[1..] == Events(next, run[1..], None);
      assert Times(run)[1..] == Times(run[1..]);
      EventsAdmitted(next, run[1..], lo, hi);
    }
  }

  /** The overrides are in force already. */
  ghost predicate InForce(ws: seq<WindowState>, overrides: seq<WindowConfig>) {
    Override(ws, overrides) == ws
  }

  lemma RoundKeepsConfig(ws: seq<WindowState>, now: int)
    ensures forall i :: 0 <= i < |ws| ==>
              var w := AllowAll(ws, now).0[i]; w.limit == ws[i].limit && w.duration == ws[i].duration
  {
    forall i | 0 <= i < |ws|
      ensures var w := AllowAll(ws, now).0[i]; w.limit == ws[i].limit && w.duration == ws[i].duration
    {
      RoundOfWindow(ws, now, i);
    }
  }

  lemma OverridesStayInForce(ws: seq<WindowState>, now: int, later: int, overrides: seq<WindowConfig>)
    requires InForce(ws, overrides)
    ensures InForce(Serve(ws, now, later, Some(overrides)).0, overrides)
    ensures Serve(ws, now, later, Some(overrides)).1 != Uncounted
  {
    var (ws1, a) := AllowAll(ws, now);
    RoundKeepsConfig(ws, now);
    assert forall i :: 0 <= i < |ws| ==> Override(ws, overrides)[i] == ws[i];
    assert Override(ws1, overrides) == ws1;
    if !a.ok {
      DeniedStaysDenied(ws, now, later);
    }
  }

  lemma {:induction false} NoneUncountedInForce(ws: seq<WindowState>, run: seq<Attempt>, overrides: seq<WindowConfig>)
    requires InForce(ws, overrides)
    ensures Count(ws, run, Some(overrides), Uncounted) == 0
    decreases |run|
  {
    if run != [] {
      OverridesStayInForce(ws, run[0].now, run[0].later, overrides);
      NoneUncountedInForce(Serve(ws, run[0].now, run[0].later, Some(overrides)).0, run[1..], overrides);
    }
  }

  /** Whatever the windows and however long the run: with a constant override answer at most one
      request is let through without being counted. */
  lemma {:induction false} AtMostOneUncounted(ws: seq<WindowState>, run: seq<Attempt>, fetched: Option<seq<WindowConfig>>)
    ensures Count(ws, run, fetched, Uncounted) <= 1
    decreases |run|
  {
    if run != [] {
      var (next, r) := Serve(ws, run[0].now, run[0].later, fetched);
      if fetched.Some? && r != Counted {
        var ws1 := AllowAll(ws, run[0].now).0;
        assert Override(next, fetched.value) == next;
        NoneUncountedInForce(next, run[1..], fetched.value);
      } else {
        AtMostOneUncounted(next, run[1..], fetched);
      }
    }
  }

  // ---------- between two resets of one window ----------

  /** A request resets window `i`: the window is asked and has expired. */
  predicate Resets(ws: seq<WindowState>, now: int, i: nat)
    requires i < |ws|
  {
    Asked(ws, now, i) && Expired(ws[i], now)
  }

  ghost predicate NoReset(ws: seq<WindowState>, run: seq<Attempt>, fetched: Option<seq<WindowConfig>>, i: nat)
    requires i < |ws|
    decreases |run|
  {
    run != [] ==>
      && !Resets(ws, run[0].now, i)
      && NoReset(Serve(ws, run[0].now, run[0].later, fetched).0, run[1..], fetched, i)
  }

  /** The configuration of window `i` under overrides: extra windows keep theirs. */
  function ConfigUnder(w: WindowState, overrides: seq<WindowConfig>, i: nat): WindowConfig {
    if i < |overrides| then overrides[i] else WindowConfig(w.limit, w.duration)
  }

  /** The limit of window `i` under the override answer. */
  function OverriddenLimit(w: WindowState, fetched: Option<seq<WindowConfig>>, i: nat): Uint {
    if fetched.Some? then ConfigUnder(w, fetched.value, i).limit else w.limit
  }

  function Max(a: int, b: int): int {
    if a < b then b else a
  }

  /** One served request, seen from window `i`. */
  lemma ServedWindow(ws: seq<WindowState>, now: int, later: int, fetched: Option<seq<WindowConfig>>, i: nat)
    requires i < |ws|
    ensures var (next, r) := Serve(ws, now, later, fetched);
            var before := if Resets(ws, now, i) then 0 else ws[i].requests;
            && |next| == |ws|
            && OverriddenLimit(next[i], fetched, i) == OverriddenLimit(ws[i], fetched, i)
            && (next[i].limit == ws[i].limit || next[i].limit == OverriddenLimit(ws[i], fetched, i))
            && (next[i].requests == before || (next[i].requests == before + 1 && before < ws[i].limit))
            && (r == Counted ==> next[i].requests == before + 1)
  {
    RoundOfWindow(ws, now, i);
  }

  lemma {:induction false} CountedWithoutReset(ws: seq<WindowState>, run: seq<Attempt>,
                                                fetched: Option<seq<WindowConfig>>, i: nat, bound: nat)
    requires i < |ws| && NoReset(ws, run, fetched, i)
    requires ws[i].requests <= bound && ws[i].limit <= bound && OverriddenLimit(ws[i], fetched, i) <= bound
    ensures ws[i].requests + Count(ws, run, fetched, Counted) <= bound
    decreases |run|
  {
    if run != [] {
      ServedWindow(ws, run[0].now, run[0].later, fetched, i);
      CountedWithoutReset(Serve(ws, run[0].now, run[0].later, fetched).0, run[1..], fetched, i, bound);
    }
  }

  /** In a stretch of requests of which only the first may reset window `i`, the counted ones stay
      within the larger of the configured and the overriding limit, and overrides add one
      uncounted request at most. Without overrides this is the limit itself. */
  lemma {:induction false} BetweenResets(ws: seq<WindowState>, run: seq<Attempt>, fetched: Option<seq<WindowConfig>>, i: nat)
    requires i < |ws|
    requires ws[i].requests <= ws[i].limit || (run != [] && Resets(ws, run[0].now, i))
    requires run != [] ==> NoReset(Serve(ws, run[0].now, run[0].later, fetched).0, run[1..], fetched, i)
    ensures Count(ws, run, fetched, Counted) <= Max(ws[i].limit, OverriddenLimit(ws[i], fetched, i))
    ensures Count(ws, run, fetched, Counted) + Count(ws, run, fetched, Uncounted)
            <= Max(ws[i].limit, OverriddenLimit(ws[i], fetched, i)) + 1
    ensures fetched.None? ==> Count(ws, run, fetched, Uncounted) == 0
  {
    AtMostOneUncounted(ws, run, fetched);
    if fetched.None? {
      NoOverrideNoUncounted(ws, run);
    }
    if run != [] {
      ServedWindow(ws, run[0].now, run[0].later, fetched, i);
      CountedWithoutReset(Serve(ws, run[0].now, run[0].later, fetched).0, run[1..], fetched, i,
                          Max(ws[i].limit, OverriddenLimit(ws[i], fetched, i)));
    }
  }

  lemma {:induction false} NoOverrideNoUncounted(ws: seq<WindowState>, run: seq<Attempt>)
    ensures Count(ws, run, None, Uncounted) == 0
    decreases |run|
  {
    if run != [] {
      NoOverrideNoUncounted(Serve(ws, run[0].now, run[0].later, None).0, run[1..]);
    }
  }

  /** An uncounted request needs a raised limit: with one window, a refusal under the configured
      limit and an overriding limit that is no higher, nothing is let through uncounted. */
  lemma UncountedNeedsHigherLimit(w: WindowState, now: int, later: int, c: WindowConfig)
    requires Serve([w], now, later, Some([c])).1 == Uncounted
    ensures c.limit > w.limit
  {
    SingleWindow(w, now);
    assert Override([AllowOne(w, now).0], [c])[0] == OverrideOne(AllowOne(w, now).0, c);
  }

  // ---------- when an override takes effect ----------

  lemma {:induction false} WouldAllowIffRoom(ws: seq<WindowState>, at: int)
    ensures WouldAllowAll(ws, at).ok <==> forall i :: 0 <= i < |ws| ==> ws[i].requests < ws[i].limit
  {
    if ws != [] {
      WouldAllowIffRoom(ws[1..], at);
      assert forall i :: 1 <= i < |ws| ==> ws[i] == ws[1..][i - 1];
    }
  }

  /** A denied round installs every override: limits and durations are those of the overrides,
      while counts and start times stay as the round left them. */
  lemma DenialInstallsOverrides(ws: seq<WindowState>, now: int, later: int, overrides: seq<WindowConfig>)
    requires !AllowAll(ws, now).1.ok
    ensures var (after, round) := (Serve(ws, now, later, Some(overrides)).0, AllowAll(ws, now).0);
            |after| == |ws| &&
            forall i :: 0 <= i < |ws| ==>
              && WindowConfig(after[i].limit, after[i].duration) == ConfigUnder(ws[i], overrides, i)
              && after[i].requests == round[i].requests && after[i].start == round[i].start
  {
    RoundKeepsConfig(ws, now);
  }

  /** What becomes of a request, from the windows' counts alone: it is counted when the round lets
      it through; otherwise it is let through uncounted exactly when the override answer leaves
      room in every window, and is denied when there is no answer or some window stays full. */
  lemma OutcomeMeaning(ws: seq<WindowState>, now: int, later: int, fetched: Option<seq<WindowConfig>>)
    ensures var (round, a) := AllowAll(ws, now);
            var (after, served) := Serve(ws, now, later, fetched);
            && (served == Counted <==> a.ok)
            && (served == Uncounted <==>
                  && !a.ok && fetched.Some?
                  && forall i :: 0 <= i < |ws| ==> round[i].requests < ConfigUnder(ws[i], fetched.value, i).limit)
            && (a.ok || fetched.None? ==> after == round)
  {
    if !AllowAll(ws, now).1.ok && fetched.Some? {
      DenialInstallsOverrides(ws, now, later, fetched.value);
      WouldAllowIffRoom(Serve(ws, now, later, fetched).0, later);
    }
  }

  /** The windows after a run of requests. */
  function ServedAfter(ws: seq<WindowState>, run: seq<Attempt>, fetched: Option<seq<WindowConfig>>): (r: seq<WindowState>)
    ensures |r| == |ws|
    decreases |run|
  {
    if run == [] then ws else ServedAfter(Serve(ws, run[0].now, run[0].later, fetched).0, run[1..], fetched)
  }

  predicate AllCounted(es: seq<Event>) {
    forall k :: 0 <= k < |es| ==> es[k].served == Counted
  }

  /** The overrides are in force from the first request on that the round refused. */
  lemma {:induction false} ConfigInForce(ws: seq<WindowState>, run: seq<Attempt>, overrides: seq<WindowConfig>, i: nat)
    requires i < |ws|
    ensures var w := ServedAfter(ws, run, Some(overrides))[i];
            WindowConfig(w.limit, w.duration) ==
            if AllCounted(Events(ws, run, Some(overrides))) then WindowConfig(ws[i].limit, ws[i].duration)
            else ConfigUnder(ws[i], overrides, i)
    decreases |run|
  {
    if run != [] {
      var (next, r) := Serve(ws, run[0].now, run[0].later, Some(overrides));
      var es := Events(ws, run, Some(overrides));
      ConfigInForce(next, run[1..], overrides, i);
      assert es[1..] == Events(next, run[1..], Some(overrides));
      if r == Counted {
        RoundKeepsConfig(ws, run[0].now);
        assert AllCounted(es) <==> AllCounted(es[1..]) by {
          assert forall k :: 1 <= k < |es| ==> es[k] == es[1..][k - 1];
        }
      } else {
        assert es[0].served == r;
        DenialInstallsOverrides(ws, run[0].now, run[0].later, overrides);
      }
    }
  }
}
