/** Fixed-window rate limiting: one window, several windows for one key, and the limiter that
    keeps windows per key. Every method is specified by a function on window states. */
module FixedWindow {
  // Times are nanoseconds since the zero time of the clock; durations are 64-bit.
  const MAX_DURATION: int := 0x7fff_ffff_ffff_ffff
  const MIN_DURATION: int := -0x8000_0000_0000_0000
  const ZERO_TIME: int := 0

  type Duration = d: int | MIN_DURATION <= d <= MAX_DURATION
  type Uint = n: int | 0 <= n < 0x1_0000_0000_0000_0000

  /** The difference of two times saturates at the ends of the duration range. */
  function Sub(t: int, u: int): Duration {
    if t - u > MAX_DURATION then MAX_DURATION
    else if t - u < MIN_DURATION then MIN_DURATION
    else t - u
  }

  datatype WindowConfig = WindowConfig(limit: Uint, duration: Duration)

  datatype WindowState = WindowState(limit: Uint, duration: Duration, requests: Uint, start: int)

  datatype Answer = Answer(ok: bool, wait: Duration)

  const YES := Answer(true, 0)

  // ---------- windows as values ----------

  predicate Expired(w: WindowState, now: int) {
    Sub(now, w.start) >= w.duration
  }

  function Denial(w: WindowState, now: int): Answer {
    Answer(false, Sub(w.start + w.duration, now))
  }

  function AllowOne(w: WindowState, now: int): (WindowState, Answer) {
    var w1 := if Expired(w, now) then w.(start := now, requests := 0) else w;
    if w1.requests < w1.limit then (w1.(requests := w1.requests + 1), YES) else (w1, Denial(w1, now))
  }

  function WouldAllowOne(w: WindowState, now: int): Answer {
    if w.requests < w.limit then YES else Denial(w, now)
  }

  /** Windows are asked in order, and the first refusal stops the round. */
  function AllowAll(ws: seq<WindowState>, now: int): (r: (seq<WindowState>, Answer))
    ensures |r.0| == |ws|
  {
    if ws == [] then ([], YES)
    else
      var (w, a) := AllowOne(ws[0], now);
      if !a.ok then ([w] + ws[1..], a)
      else
        var (rest, b) := AllowAll(ws[1..], now);
        ([w] + rest, b)
  }

  function WouldAllowAll(ws: seq<WindowState>, now: int): Answer {
    if ws == [] then YES
    else if !WouldAllowOne(ws[0], now).ok then WouldAllowOne(ws[0], now)
    else WouldAllowAll(ws[1..], now)
  }

  function FreshWindow(c: WindowConfig): WindowState {
    WindowState(c.limit, c.duration, 0, ZERO_TIME)
  }

  function FreshWindows(cfg: seq<WindowConfig>): seq<WindowState> {
    seq(|cfg|, i requires 0 <= i < |cfg| => FreshWindow(cfg[i]))
  }

  function OverrideOne(w: WindowState, c: WindowConfig): WindowState {
    w.(limit := c.limit, duration := c.duration)
  }

  /** Limits and durations change, requests and start times stay; extra overrides are dropped. */
  function Override(ws: seq<WindowState>, overrides: seq<WindowConfig>): (r: seq<WindowState>)
    ensures |r| == |ws|
    ensures forall i :: 0 <= i < |ws| ==> r[i].requests == ws[i].requests && r[i].start == ws[i].start
    ensures forall i :: 0 <= i < |ws| ==>
              WindowConfig(r[i].limit, r[i].duration) ==
              if i < |overrides| then overrides[i] else WindowConfig(ws[i].limit, ws[i].duration)
  {
    seq(|ws|, i requires 0 <= i < |ws| => if i < |overrides| then OverrideOne(ws[i], overrides[i]) else ws[i])
  }

  // ---------- a window as an object ----------

  class Window {
    var limit: Uint
    var duration: Duration
    var requests: Uint
    var start: int

    constructor (c: WindowConfig)
      ensures State() == FreshWindow(c)
    {
      limit, duration, requests, start := c.limit, c.duration, 0, ZERO_TIME;
    }

    function State(): WindowState
      reads this
    {
      WindowState(limit, duration, requests, start)
    }

    /** `window.allow`. The counter cannot pass the limit, so it cannot wrap around. */
    method Allow(now: int) returns (a: Answer)
      modifies this
      ensures (State(), a) == AllowOne(old(State()), now)
    {
      if Sub(now, start) >= duration {
        start := now;
        requests := 0;
      }
      if requests < limit {
        requests := requests + 1;
        return YES;
      }
      return Answer(false, Sub(start + duration, now));
    }

    /** `window.wouldAllow`. */
    method WouldAllow(now: int) returns (a: Answer)
      ensures a == WouldAllowOne(State(), now)
    {
      if requests < limit {
        return YES;
      }
      return Answer(false, Sub(start + duration, now));
    }
  }

  predicate Distinct<T(==)>(xs: seq<T>) {
    forall i, j :: 0 <= i < j < |xs| ==> xs[i] != xs[j]
  }

  ghost function States(ws: seq<Window>): seq<WindowState>
    reads ws
  {
    seq(|ws|, i requires 0 <= i < |ws| reads ws => ws[i].State())
  }

  lemma StatesAre(ws: seq<Window>, ss: seq<WindowState>)
    requires |ss| == |ws| && forall j :: 0 <= j < |ws| ==> ws[j].State() == ss[j]
    ensures States(ws) == ss
  {}

  /** A round whose first windows have ended up as `done`. */
  ghost function Behind(done: seq<WindowState>, r: (seq<WindowState>, Answer)): (seq<WindowState>, Answer) {
    (done + r.0, r.1)
  }

  /** `cur` is `was` with the windows before `i` already asked; asking window `i` comes next. */
  lemma RoundStep(cur: seq<WindowState>, was: seq<WindowState>, i: nat, now: int)
    requires i < |was| == |cur| && cur[i..] == was[i..]
    ensures var (w, a) := AllowOne(was[i], now);
            var next := cur[i := w];
            && next[i + 1..] == was[i + 1..]
            && Behind(cur[..i], AllowAll(was[i..], now)) ==
               if a.ok then Behind(next[..i + 1], AllowAll(was[i + 1..], now)) else (next, a)
  {
    var (w, a) := AllowOne(was[i], now);
    var next := cur[i := w];
    assert was[i..][1..] == was[i + 1..] && cur[i..][1..] == next[i + 1..];
    assert next == cur[..i] + ([w] + was[i + 1..]);
    assert next[..i + 1] == cur[..i] + [w];
    var rest := AllowAll(was[i + 1..], now).0;
    assert cur[..i] + ([w] + rest) == cur[..i] + [w] + rest;
  }

  /** Asks window `i` and leaves the others alone. */
  method AskWindow(ws: seq<Window>, i: nat, now: int) returns (a: Answer)
    requires Distinct(ws) && i < |ws|
    modifies ws[i]
    ensures (ws[i].State(), a) == AllowOne(old(States(ws))[i], now)
    ensures States(ws) == old(States(ws))[i := ws[i].State()]
  {
    ghost var was := States(ws);
    a := ws[i].Allow(now);
    StatesAre(ws, was[i := ws[i].State()]);
  }

  /** `windows.allow`. */
  method AllowWindows(ws: seq<Window>, now: int) returns (a: Answer)
    requires Distinct(ws)
    modifies ws
    ensures (States(ws), a) == AllowAll(old(States(ws)), now)
  {
    ghost var was := States(ws);
    var i := 0;
    assert was[0..] == was && [] + AllowAll(was, now).0 == AllowAll(was, now).0;
    while i < |ws|
      invariant 0 <= i <= |ws| && States(ws)[i..] == was[i..]
      invariant AllowAll(was, now) == Behind(States(ws)[..i], AllowAll(was[i..], now))
    {
      RoundStep(States(ws), was, i, now);
      assert States(ws)[i] == States(ws)[i..][0] == was[i..][0] == was[i];
      a := AskWindow(ws, i, now);
      i := i + 1;
      if !a.ok {
        return;
      }
    }
    assert States(ws)[..i] + [] == States(ws);
    return YES;
  }

  /** `windows.wouldAllow`. */
  method WouldAllowWindows(ws: seq<Window>, now: int) returns (a: Answer)
    ensures a == WouldAllowAll(States(ws), now)
  {
    var i := 0;
    assert States(ws)[0..] == States(ws);
    while i < |ws|
      invariant 0 <= i <= |ws|
      invariant WouldAllowAll(States(ws), now) == WouldAllowAll(States(ws)[i..], now)
    {
      assert States(ws)[i..][1..] == States(ws)[i + 1..];
      a := ws[i].WouldAllow(now);
      if !a.ok {
        return;
      }
      i := i + 1;
    }
    return YES;
  }

  // ---------- the limiter ----------

  type View = map<string, seq<WindowState>>

  /** The windows of a key; they are created from the configuration on the key's first request. */
  function WindowsOf(v: View, key: string, cfg: seq<WindowConfig>): seq<WindowState> {
    if key in v then v[key] else FreshWindows(cfg)
  }

  /** Fresh windows for a configuration. */
  method NewWindows(cfg: seq<WindowConfig>) returns (ws: seq<Window>, ghost made: set<object>)
    ensures Distinct(ws) && fresh(made) && forall w :: w in ws ==> w in made
    ensures States(ws) == FreshWindows(cfg)
  {
    ws, made := [], {};
    while |ws| < |cfg|
      invariant |ws| <= |cfg| && Distinct(ws) && fresh(made)
      invariant forall i :: 0 <= i < |ws| ==> ws[i] in made && ws[i].State() == FreshWindow(cfg[i])
    {
      var w := new Window(cfg[|ws|]);
      ws, made := ws + [w], made + {w};
    }
    StatesAre(ws, FreshWindows(cfg));
  }

  class MultiBucketFixedWindowLimiter {
    var windows: map<string, seq<Window>>
    const cfg: seq<WindowConfig>
    ghost var Repr: set<object>

    ghost predicate Valid()
      reads this, Repr
    {
      && this in Repr
      && (forall k :: k in windows ==> Distinct(windows[k]))
      && (forall k, w :: k in windows && w in windows[k] ==> w in Repr)
      && (forall k, l, w :: k in windows && l in windows && w in windows[k] && w in windows[l] ==> k == l)
    }

    ghost function Contents(): View
      reads this, Repr
      requires Valid()
    {
      map k | k in windows :: States(windows[k])
    }

    constructor (config: seq<WindowConfig>)
      ensures Valid() && fresh(Repr)
      ensures Contents() == map[] && cfg == config
    {
      windows := map[];
      cfg := config;
      Repr := {this};
    }

    /** Changing the windows of one key leaves the windows of the others alone. */
    twostate lemma OnlyKeyChanged(key: string)
      requires old(Valid()) && Valid() && windows == old(windows) && key in windows
      requires forall k, w :: k in windows && k != key && w in windows[k] ==> unchanged(w)
      ensures Contents() == old(Contents())[key := States(windows[key])]
    {
      forall k | k in windows && k != key ensures States(windows[k]) == old(States(windows[k])) {
        assert forall i :: 0 <= i < |windows[k]| ==> windows[k][i] in windows[k];
      }
    }

    /** Creates the windows of a key that has none. */
    method CreateWindows(key: string)
      requires Valid() && key !in windows
      modifies this
      ensures Valid() && fresh(Repr - old(Repr)) && key in windows
      ensures Contents() == old(Contents())[key := FreshWindows(cfg)]
    {
      var ws, made := NewWindows(cfg);
      assert forall k :: k in windows ==> States(windows[k]) == old(States(windows[k]));
      assert forall k, w :: k in windows && w in windows[k] ==> w !in ws;
      windows := windows[key := ws];
      Repr := Repr + made;
    }

    /** `Allow`: one round over the windows of the key. No other key's windows change. */
    method Allow(key: string, now: int) returns (a: Answer)
      requires Valid()
      modifies Repr
      ensures Valid() && fresh(Repr - old(Repr))
      ensures var (after, answer) := AllowAll(WindowsOf(old(Contents()), key, cfg), now);
              a == answer && Contents() == old(Contents())[key := after]
    {
      if key !in windows {
        CreateWindows(key);
      }
      label created:
      assert Contents()[key] == WindowsOf(old(Contents()), key, cfg);
      a := AllowWindows(windows[key], now);
      OnlyKeyChanged@created(key);
      assert Contents() == old(Contents())[key := States(windows[key])];
    }

    /** `WouldAllow`: reads only; an unknown key is let through. */
    method WouldAllow(key: string, now: int) returns (a: Answer)
      requires Valid()
      ensures a == if key in Contents() then WouldAllowAll(Contents()[key], now) else YES
    {
      if key !in windows {
        return YES;
      }
      a := WouldAllowWindows(windows[key], now);
    }

    /** `OverrideWindows`: new limits and durations for one known key. */
    method OverrideWindows(key: string, overrides: seq<WindowConfig>)
      requires Valid()
      modifies Repr
      ensures Valid() && Repr == old(Repr)
      ensures Contents() == if key in old(Contents())
                            then old(Contents())[key := Override(old(Contents())[key], overrides)]
                            else old(Contents())
    {
      if key !in windows {
        return;
      }
      var ws := windows[key];
      var kept := if |overrides| > |ws| then overrides[..|ws|] else overrides;
      var i := 0;
      while i < |kept|
        invariant 0 <= i <= |kept|
        invariant unchanged(this) && Valid()
        invariant forall j :: 0 <= j < i ==> ws[j].State() == OverrideOne(old(States(ws))[j], kept[j])
        invariant forall j :: i <= j < |ws| ==> ws[j].State() == old(States(ws))[j]
        invariant forall k, w :: k in windows && k != key && w in windows[k] ==> unchanged(w)
      {
        ws[i].limit := kept[i].limit;
        ws[i].duration := kept[i].duration;
        i := i + 1;
      }
      assert States(ws) == Override(old(States(ws)), overrides);
      OnlyKeyChanged(key);
    }
  }
}
