/** What whole runs of the fixed-window limiter keep: how many requests get through, and how firm
    a denial is. */
module LimiterRuns {
  import opened FixedWindow

  predicate NonDecreasing(ts: seq<int>) {
    forall i, j :: 0 <= i < j < |ts| ==> ts[i] <= ts[j]
  }

  ghost predicate AllFrom(ts: seq<int>, t: int) {
    forall i :: 0 <= i < |ts| ==> t <= ts[i]
  }

  /** The windows of one key after requests at the given times. */
  function AfterCalls(ws: seq<WindowState>, ts: seq<int>): (r: seq<WindowState>)
    ensures |r| == |ws|
    decreases |ts|
  {
    if ts == [] then ws else AfterCalls(AllowAll(ws, ts[0]).0, ts[1..])
  }

  /** How many of the requests at the given times are admitted in the interval [lo, hi). */
  function Admitted(ws: seq<WindowState>, ts: seq<int>, lo: int, hi: int): nat
    decreases |ts|
  {
    if ts == [] then 0
    else
      var (w, a) := AllowAll(ws, ts[0]);
      (if a.ok && lo <= ts[0] < hi then 1 else 0) + Admitted(w, ts[1..], lo, hi)
  }

  // ---------- one round, seen from one window ----------

  /** In a round, window `i` is asked when all windows before it let the request through. */
  predicate Asked(ws: seq<WindowState>, now: int, i: nat)
    requires i <= |ws|
  {
    forall j :: 0 <= j < i ==> AllowOne(ws[j], now).1.ok
  }

  /** A window that is not asked stays as it is; an asked one takes one step, and a request is
      admitted exactly when every window lets it through. */
  lemma {:induction false} RoundOfWindow(ws: seq<WindowState>, now: int, i: nat)
    requires i < |ws|
    ensures AllowAll(ws, now).0[i] == if Asked(ws, now, i) then AllowOne(ws[i], now).0 else ws[i]
    ensures AllowAll(ws, now).1.ok <==> Asked(ws, now, |ws|)
  {
    var first := AllowOne(ws[0], now).1.ok;
    if first {
      assert Asked(ws[1..], now, |ws| - 1) <==> Asked(ws, now, |ws|) by { ShiftAsked(ws, now, |ws| - 1); }
      if i > 0 {
        ShiftAsked(ws, now, i - 1);
        RoundOfWindow(ws[1..], now, i - 1);
      } else if |ws| > 1 {
        RoundOfWindow(ws[1..], now, 0);
      }
    }
  }

  lemma ShiftAsked(ws: seq<WindowState>, now: int, i: nat)
    requires i < |ws| && AllowOne(ws[0], now).1.ok
    ensures Asked(ws[1..], now, i) <==> Asked(ws, now, i + 1)
  {
    if Asked(ws, now, i + 1) {
      assert forall j :: 0 <= j < i ==> ws[1..][j] == ws[j + 1];
    }
    if Asked(ws[1..], now, i) {
      forall j | 0 <= j < i + 1 ensures AllowOne(ws[j], now).1.ok {
        if j > 0 {
          assert ws[j] == ws[1..][j - 1];
        }
      }
    }
  }

  /** A refused request was refused by an asked window, which set the answer. */
  lemma {:induction false} Refuser(ws: seq<WindowState>, now: int) returns (i: nat)
    requires !AllowAll(ws, now).1.ok
    ensures i < |ws| && Asked(ws, now, i)
    ensures AllowAll(ws, now).1 == AllowOne(ws[i], now).1
  {
    if !AllowOne(ws[0], now).1.ok {
      i := 0;
    } else {
      var k := Refuser(ws[1..], now);
      ShiftAsked(ws, now, k);
      i := k + 1;
    }
  }

  // ---------- how many requests fit in an interval ----------

  /** The request that opens a window uses one of its slots, so two neighbouring windows leave
      2 * limit - 1 slots for one interval of the window's length. */
  function Cap(limit: Uint): nat {
    if limit == 0 then 0 else 2 * limit - 1
  }

  /** Window state `w` at time `now`, with `c` admissions so far in the interval of its length
      that starts at `lo`. */
  ghost predicate WithinBudget(w: WindowState, c: nat, lo: int, now: int) {
    && w.requests <= w.limit
    && w.start <= now
    && c <= Cap(w.limit)
    && (now < lo ==> c == 0)
    && (w.requests == 0 ==> c == 0 && (w.limit == 0 || w.start == ZERO_TIME))
    && (c == 0 || (w.start < lo ==> c < w.requests))
    && (c == 0 || (w.start < lo + w.duration ==> c < w.limit + w.requests))
  }

  lemma BudgetStep(w: WindowState, c: nat, lo: int, last: int, now: int)
    requires WithinBudget(w, c, lo, last) && last <= now && MAX_DURATION <= now
    ensures WithinBudget(w, c, lo, now)
    ensures var (w1, a) := AllowOne(w, now);
            && w1.limit == w.limit && w1.duration == w.duration
            && WithinBudget(w1, c, lo, now)
            && (a.ok && lo <= now < lo + w.duration ==> WithinBudget(w1, c + 1, lo, now))
  {}

  lemma {:induction false} BudgetRun(ws: seq<WindowState>, ts: seq<int>, i: nat, c: nat, lo: int, last: int)
    requires i < |ws| && NonDecreasing(ts) && AllFrom(ts, last) && AllFrom(ts, MAX_DURATION)
    requires WithinBudget(ws[i], c, lo, last)
    ensures c + Admitted(ws, ts, lo, lo + ws[i].duration) <= Cap(ws[i].limit)
    decreases |ts|
  {
    if ts != [] {
      var now := ts[0];
      var (next, a) := AllowAll(ws, now);
      RoundOfWindow(ws, now, i);
      BudgetStep(ws[i], c, lo, last, now);
      var c' := if a.ok && lo <= now < lo + ws[i].duration then c + 1 else c;
      BudgetRun(next, ts[1..], i, c', lo, now);
    }
  }

  /** However many windows a key has, each of them keeps every half-open interval of its own
      length below twice its limit. */
  lemma LessThanTwiceTheLimit(cfg: seq<WindowConfig>, ts: seq<int>, i: nat, lo: int)
    requires i < |cfg| && NonDecreasing(ts) && AllFrom(ts, MAX_DURATION)
    ensures Admitted(FreshWindows(cfg), ts, lo, lo + cfg[i].duration) <= Cap(cfg[i].limit)
  {
    BudgetRun(FreshWindows(cfg), ts, i, 0, lo, ZERO_TIME);
  }

  lemma SingleWindow(w: WindowState, t: int)
    ensures AllowAll([w], t) == ([AllowOne(w, t).0], AllowOne(w, t).1)
  {
    assert [w][1..] == [] && [AllowOne(w, t).0] + [] == [AllowOne(w, t).0];
  }

  function Repeat(t: int, n: nat): seq<int> {
    seq(n, _ => t)
  }

  /** A window with room for `n` requests admits `n` simultaneous ones. */
  lemma {:induction false} Burst(w: WindowState, t: int, n: nat, ts: seq<int>, lo: int, hi: int)
    requires !Expired(w, t) && w.requests + n <= w.limit
    ensures Admitted([w], Repeat(t, n) + ts, lo, hi) ==
            (if lo <= t < hi then n else 0) + Admitted([w.(requests := w.requests + n)], ts, lo, hi)
    decreases n
  {
    var all := Repeat(t, n) + ts;
    if n == 0 {
      assert all == ts;
    } else {
      assert all[1..] == Repeat(t, n - 1) + ts;
      var next := w.(requests := w.requests + 1);
      SingleWindow(w, t);
      Burst(next, t, n - 1, ts, lo, hi);
    }
  }

  lemma FirstCall(w: WindowState, t: int, ts: seq<int>, lo: int, hi: int)
    ensures Admitted([w], [t] + ts, lo, hi) ==
            (if AllowOne(w, t).1.ok && lo <= t < hi then 1 else 0) + Admitted([AllowOne(w, t).0], ts, lo, hi)
  {
    assert ([t] + ts)[1..] == ts;
    SingleWindow(w, t);
  }

  /** The times of a run that fills an interval: one request opens the window, the rest of it is
      used just before it ends, and the next window is used up as soon as it opens. */
  function FillingRun(c: WindowConfig, t: int): (ts: seq<int>)
    requires c.limit > 0 && c.duration > 1
    ensures NonDecreasing(ts) && AllFrom(ts, t)
  {
    [t] + (Repeat(t + c.duration - 1, c.limit - 1)
           + ([t + c.duration] + (Repeat(t + c.duration, c.limit - 1) + [])))
  }

  lemma FirstWindowFills(c: WindowConfig, t: int, late: int, hi: int, rest: seq<int>)
    requires c.limit > 0 && t >= MAX_DURATION && t < late < t + c.duration && late < hi
    ensures Admitted([FreshWindow(c)], [t] + (Repeat(late, c.limit - 1) + rest), late, hi) ==
            c.limit - 1 + Admitted([WindowState(c.limit, c.duration, c.limit, t)], rest, late, hi)
  {
    var used := WindowState(c.limit, c.duration, 1, t);
    assert AllowOne(FreshWindow(c), t) == (used, YES);
    FirstCall(FreshWindow(c), t, Repeat(late, c.limit - 1) + rest, late, hi);
    Burst(used, late, c.limit - 1, rest, late, hi);
  }

  lemma NextWindowFills(w: WindowState, again: int, lo: int, hi: int)
    requires w.limit > 0 && w.duration > 0 && again == w.start + w.duration && lo <= again < hi
    ensures Admitted([w], [again] + (Repeat(again, w.limit - 1) + []), lo, hi) == w.limit
  {
    var used := w.(start := again, requests := 1);
    assert AllowOne(w, again) == (used, YES);
    FirstCall(w, again, Repeat(again, w.limit - 1) + [], lo, hi);
    Burst(used, again, w.limit - 1, [], lo, hi);
  }

  /** The bound cannot be improved: for every positive limit and duration above one tick some run
      fills an interval completely. */
  lemma CapIsReached(c: WindowConfig, t: int)
    requires c.limit > 0 && c.duration > 1 && t >= MAX_DURATION
    ensures var lo := t + c.duration - 1;
            Admitted(FreshWindows([c]), FillingRun(c, t), lo, lo + c.duration) == Cap(c.limit)
  {
    var late, again := t + c.duration - 1, t + c.duration;
    var hi := late + c.duration;
    assert FreshWindows([c]) == [FreshWindow(c)];
    FirstWindowFills(c, t, late, hi, [again] + (Repeat(again, c.limit - 1) + []));
    NextWindowFills(WindowState(c.limit, c.duration, c.limit, t), again, late, hi);
  }

  // ---------- a denial is firm ----------

  ghost predicate NoneAdmitted(ws: seq<WindowState>, ts: seq<int>)
    decreases |ts|
  {
    ts == [] || (!AllowAll(ws, ts[0]).1.ok && NoneAdmitted(AllowAll(ws, ts[0]).0, ts[1..]))
  }

  /** Window `i` is full until `until`, and no later request can get past it before. */
  lemma {:induction false} FullWindowDenies(ws: seq<WindowState>, ts: seq<int>, i: nat, until: int)
    requires i < |ws| && ws[i].requests >= ws[i].limit && until == ws[i].start + ws[i].duration
    requires forall k :: 0 <= k < |ts| ==> ws[i].start <= ts[k] < until
    ensures NoneAdmitted(ws, ts) && AfterCalls(ws, ts)[i] == ws[i]
    decreases |ts|
  {
    if ts != [] {
      RoundOfWindow(ws, ts[0], i);
      FullWindowDenies(AllowAll(ws, ts[0]).0, ts[1..], i, until);
    }
  }

  /** A denied request is told to wait for one window's remaining time: at most that window's
      duration, and positive when the duration is. Until then nothing is admitted for the key,
      and after the wait that window lets a request through again, if its limit is positive. */
  lemma DenialIsFirm(ws: seq<WindowState>, now: int, ts: seq<int>) returns (i: nat)
    requires forall k :: 0 <= k < |ws| ==> ws[k].start <= now
    requires !AllowAll(ws, now).1.ok
    requires AllFrom(ts, now) && forall k :: 0 <= k < |ts| ==> ts[k] < now + AllowAll(ws, now).1.wait
    ensures i < |ws| && !AllowOne(ws[i], now).1.ok
    ensures var wait := AllowAll(ws, now).1.wait;
            && wait <= ws[i].duration && (ws[i].duration > 0 ==> wait > 0)
            && NoneAdmitted(AllowAll(ws, now).0, ts)
            && (ws[i].limit > 0 ==> AllowOne(AfterCalls(AllowAll(ws, now).0, ts)[i], now + wait).1.ok)
  {
    i := Refuser(ws, now);
    RoundOfWindow(ws, now, i);
    FullWindowDenies(AllowAll(ws, now).0, ts, i, now + AllowAll(ws, now).1.wait);
  }

  lemma {:induction false} StartsBehindClock(ws: seq<WindowState>, ts: seq<int>, now: int)
    requires NonDecreasing(ts) && forall k :: 0 <= k < |ts| ==> ts[k] <= now
    requires forall i :: 0 <= i < |ws| ==> ws[i].start <= now
    ensures forall i :: 0 <= i < |ws| ==> AfterCalls(ws, ts)[i].start <= now
    decreases |ts|
  {
    if ts != [] {
      var next := AllowAll(ws, ts[0]).0;
      forall i | 0 <= i < |ws| ensures next[i].start <= now {
        RoundOfWindow(ws, ts[0], i);
      }
      StartsBehindClock(next, ts[1..], now);
    }
  }

  /** A denial is firm after any history of a key whose clock does not run backwards. */
  lemma DenialIsFirmAfterAnyRun(cfg: seq<WindowConfig>, past: seq<int>, now: int, future: seq<int>)
    returns (i: nat)
    requires NonDecreasing(past) && now >= ZERO_TIME && forall k :: 0 <= k < |past| ==> past[k] <= now
    requires !AllowAll(AfterCalls(FreshWindows(cfg), past), now).1.ok
    requires AllFrom(future, now)
    requires forall k :: 0 <= k < |future| ==>
               future[k] < now + AllowAll(AfterCalls(FreshWindows(cfg), past), now).1.wait
    ensures var ws := AfterCalls(FreshWindows(cfg), past);
            var (denied, a) := AllowAll(ws, now);
            && i < |ws| && !AllowOne(ws[i], now).1.ok
            && a.wait <= ws[i].duration && (ws[i].duration > 0 ==> a.wait > 0)
            && NoneAdmitted(denied, future)
            && (ws[i].limit > 0 ==> AllowOne(AfterCalls(denied, future)[i], now + a.wait).1.ok)
  {
    StartsBehindClock(FreshWindows(cfg), past, now);
    i := DenialIsFirm(AfterCalls(FreshWindows(cfg), past), now, future);
  }

  // ---------- asking without counting ----------

  /** On windows that have not expired, asking without counting gives the answer of a request. */
  lemma {:induction false} WouldAllowAgrees(ws: seq<WindowState>, now: int)
    requires forall i :: 0 <= i < |ws| ==> !Expired(ws[i], now)
    ensures WouldAllowAll(ws, now) == AllowAll(ws, now).1
  {
    if ws != [] {
      WouldAllowAgrees(ws[1..], now);
    }
  }

  /** A denied round leaves the refusing window full, so asking again without counting is denied
      at any time, even after the windows have expired. */
  lemma {:induction false} DeniedStaysDenied(ws: seq<WindowState>, now: int, later: int)
    requires !AllowAll(ws, now).1.ok
    ensures !WouldAllowAll(AllowAll(ws, now).0, later).ok
  {
    var r := AllowAll(ws, now).0;
    if AllowOne(ws[0], now).1.ok {
      DeniedStaysDenied(ws[1..], now, later);
      assert r[1..] == AllowAll(ws[1..], now).0;
    }
  }

  // ---------- all keys together ----------

  datatype Call = Call(key: string, now: int)

  function AdmittedForKey(v: View, cfg: seq<WindowConfig>, calls: seq<Call>, key: string, lo: int, hi: int): nat
    decreases |calls|
  {
    if calls == [] then 0
    else
      var (after, a) := AllowAll(WindowsOf(v, calls[0].key, cfg), calls[0].now);
      (if a.ok && calls[0].key == key && lo <= calls[0].now < hi then 1 else 0)
      + AdmittedForKey(v[calls[0].key := after], cfg, calls[1..], key, lo, hi)
  }

  function TimesOf(calls: seq<Call>, key: string): seq<int> {
    if calls == [] then []
    else if calls[0].key == key then [calls[0].now] + TimesOf(calls[1..], key)
    else TimesOf(calls[1..], key)
  }

  /** A limiter shared by all keys treats each key as if it were alone. */
  lemma {:induction false} KeysAreIndependent(v: View, cfg: seq<WindowConfig>, calls: seq<Call>, key: string, lo: int, hi: int)
    ensures AdmittedForKey(v, cfg, calls, key, lo, hi) == Admitted(WindowsOf(v, key, cfg), TimesOf(calls, key), lo, hi)
    decreases |calls|
  {
    if calls != [] {
      var (after, a) := AllowAll(WindowsOf(v, calls[0].key, cfg), calls[0].now);
      KeysAreIndependent(v[calls[0].key := after], cfg, calls[1..], key, lo, hi);
      if calls[0].key == key {
        assert TimesOf(calls, key)[1..] == TimesOf(calls[1..], key);
      }
    }
  }

  /** The bound of one key, for a new limiter and any traffic of all keys. */
  lemma LessThanTwiceTheLimitForKey(cfg: seq<WindowConfig>, calls: seq<Call>, key: string, i: nat, lo: int)
    requires i < |cfg| && NonDecreasing(TimesOf(calls, key)) && AllFrom(TimesOf(calls, key), MAX_DURATION)
    ensures AdmittedForKey(map[], cfg, calls, key, lo, lo + cfg[i].duration) <= Cap(cfg[i].limit)
  {
    KeysAreIndependent(map[], cfg, calls, key, lo, lo + cfg[i].duration);
    LessThanTwiceTheLimit(cfg, TimesOf(calls, key), i, lo);
  }
}
