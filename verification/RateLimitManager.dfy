/** The rate limit manager: loading a configuration into an ordered pattern list, and serving
    requests by the first matching pattern. */
module RateLimitManager {
  import opened Common
  import opened RoutePattern
  import opened PathPieces
  import opened PatternParser
  import opened FixedWindow
  import opened OverrideRuns

  datatype Mode = Reporting | Enforcing

  datatype Config = Config(enabled: bool, mode: Mode, paths: map<string, seq<WindowConfig>>)

  /** `IndexFailure` stands for the index panic on a pattern without segments. */
  datatype LoadError =
    | BadPattern(text: string, error: ParseError)
    | Conflict(new_: string, existing: string)
    | IndexFailure(new_: string, existing: string)

  // ---------- pattern lists ----------

  predicate MayPrecede(p: Pattern, q: Pattern) {
    Compatible(p, q) && SyntacticRelation(p, q) != MoreGeneral
  }

  predicate IsParsed(p: Pattern) {
    Parse(p.text) == Ok(p)
  }

  /** No two patterns conflict, and none stands before a more specific one. */
  ghost predicate Ordered(ps: seq<Pattern>) {
    forall i, j {:trigger MayPrecede(ps[i], ps[j])} :: 0 <= i < j < |ps| ==> MayPrecede(ps[i], ps[j])
  }

  ghost predicate AllParsed(ps: seq<Pattern>) {
    forall i {:trigger IsParsed(ps[i])} :: 0 <= i < |ps| ==> IsParsed(ps[i])
  }

  ghost predicate AllWellFormed(ps: seq<Pattern>) {
    forall i {:trigger WellFormedSegments(ps[i].segments)} :: 0 <= i < |ps| ==> WellFormedSegments(ps[i].segments)
  }

  function Texts(ps: seq<Pattern>): set<string> {
    set p | p in ps :: p.text
  }

  /** Two configured paths can be loaded together. */
  predicate NoConflict(t: string, u: string) {
    Parse(t).Ok? && Parse(u).Ok? && (t == u || Compatible(Parse(t).value, Parse(u).value))
  }

  /** A configuration can be loaded: every path parses and no two of them conflict. The order in
      which the paths are visited plays no part. */
  ghost predicate Acceptable(texts: set<string>) {
    forall t, u {:trigger NoConflict(t, u)} :: t in texts && u in texts ==> NoConflict(t, u)
  }

  /** The requests of two configured paths are apart, or those of one are strictly among those of
      the other. */
  ghost predicate ApartOrNested(t: string, u: string) {
    && Parse(t).Ok? && Parse(u).Ok?
    && (t == u || var p, q := Parse(t).value, Parse(u).value; !Meet(p, q) || Includes(p, q) != Includes(q, p))
  }

  /** What a configuration without "/" must be like, in terms of requests. */
  lemma AcceptableIffNested(texts: set<string>)
    requires forall t {:trigger PathOf(t)} :: t in texts ==> PathOf(t) != "/"
    ensures Acceptable(texts) <==>
              forall t, u {:trigger ApartOrNested(t, u)} :: t in texts && u in texts ==> ApartOrNested(t, u)
  {
    forall t, u | t in texts && u in texts ensures NoConflict(t, u) <==> ApartOrNested(t, u) {
      if Parse(t).Ok? && Parse(u).Ok? {
        assert PathOf(t) != "/" && PathOf(u) != "/";
        ParseMeaning(t);
        ParseMeaning(u);
        CompatibleIffNested(Parse(t).value, Parse(u).value);
      }
    }
  }

  /** `p` cannot be loaded beside `q`, and `e` says why. */
  predicate IsClash(p: Pattern, q: Pattern, e: LoadError) {
    && !Compatible(p, q)
    && e == if Comparable(p, q) then Conflict(p.text, q.text) else IndexFailure(p.text, q.text)
  }

  /** The configured path `t` is to blame for a failed load. */
  ghost predicate Blames(e: LoadError, t: string, texts: set<string>) {
    t in texts &&
    match Parse(t)
    case Err(error) => e == BadPattern(t, error)
    case Ok(p) => exists u {:trigger Parse(u)} :: u in texts && u != t && Parse(u).Ok? && IsClash(p, Parse(u).value, e)
  }

  /** The configuration cannot be loaded, and some path of it is to blame. */
  ghost predicate Unloadable(e: LoadError, texts: set<string>) {
    !Acceptable(texts) && exists t {:trigger Blames(e, t, texts)} :: Blames(e, t, texts)
  }

  /** A path does not parse, or clashes with a loaded pattern. */
  ghost predicate Refused(ps: seq<Pattern>, text: string, e: LoadError) {
    match Parse(text)
    case Err(error) => e == BadPattern(text, error)
    case Ok(p) => exists i {:trigger IsClash(p, ps[i], e)} :: 0 <= i < |ps| && IsClash(p, ps[i], e)
  }

  /** A path that is refused makes the configuration unacceptable, and is to blame. */
  lemma Unacceptable(ps: seq<Pattern>, text: string, texts: set<string>, e: LoadError)
    requires AllParsed(ps) && Texts(ps) <= texts && text in texts && text !in Texts(ps)
    requires Refused(ps, text, e)
    ensures !Acceptable(texts) && Blames(e, text, texts)
  {
    match Parse(text) {
      case Err(_) =>
        assert !NoConflict(text, text);
      case Ok(p) =>
        var i :| 0 <= i < |ps| && IsClash(p, ps[i], e);
        assert ps[i].text in Texts(ps) && IsParsed(ps[i]);
        assert Parse(ps[i].text).Ok? && !NoConflict(text, ps[i].text);
    }
  }

  function Insert<T>(xs: seq<T>, k: nat, x: T): seq<T>
    requires k <= |xs|
  {
    xs[..k] + [x] + xs[k..]
  }

  /** Limiters that no key has used yet. */
  function NoWindows(n: nat): seq<View> {
    seq(n, _ => map[])
  }

  /** `k` is the place of `p`: the first pattern that `p` is more specific than, or the end. */
  ghost predicate IsPlace(ps: seq<Pattern>, p: Pattern, k: nat) {
    && k <= |ps|
    && (forall i {:trigger Compatible(p, ps[i])} :: 0 <= i < |ps| ==> Compatible(p, ps[i]))
    && (forall i {:trigger SyntacticRelation(p, ps[i])} :: 0 <= i < k ==> SyntacticRelation(p, ps[i]) != MoreSpecific)
    && (k < |ps| ==> SyntacticRelation(p, ps[k]) == MoreSpecific)
  }

  lemma BeforeThePlace(ps: seq<Pattern>, p: Pattern, k: nat, i: nat)
    requires IsPlace(ps, p, k) && i < k
    ensures MayPrecede(ps[i], p)
  {
    CompatibleSymmetric(p, ps[i]);
    SyntacticInverse(p, ps[i]);
  }

  /** A new pattern is not above one that comes after its place: it would put the pattern at its
      place above that one as well. */
  lemma PlaceGuards(p: Pattern, at: Pattern, q: Pattern)
    requires WellFormedSegments(p.segments) && WellFormedSegments(at.segments) && WellFormedSegments(q.segments)
    requires Compatible(p, at) && SyntacticRelation(p, at) == MoreSpecific
    requires Compatible(p, q) && MayPrecede(at, q)
    ensures MayPrecede(p, q)
  {
    if SyntacticRelation(p, q) == MoreGeneral {
      PrecedenceTransitive(p, at, q);
    }
  }

  lemma AfterThePlace(ps: seq<Pattern>, p: Pattern, k: nat, j: nat)
    requires Ordered(ps) && AllWellFormed(ps) && WellFormedSegments(p.segments) && IsPlace(ps, p, k)
    requires k <= j < |ps|
    ensures MayPrecede(p, ps[j])
  {
    assert Compatible(p, ps[j]) && Compatible(p, ps[k]);
    if j > k {
      assert WellFormedSegments(ps[j].segments) && WellFormedSegments(ps[k].segments);
      assert MayPrecede(ps[k], ps[j]);
      PlaceGuards(p, ps[k], ps[j]);
    }
  }

  lemma InsertKeepsOrder(ps: seq<Pattern>, p: Pattern, k: nat)
    requires Ordered(ps) && AllWellFormed(ps) && WellFormedSegments(p.segments) && IsPlace(ps, p, k)
    ensures Ordered(Insert(ps, k, p)) && AllWellFormed(Insert(ps, k, p))
  {
    var qs := Insert(ps, k, p);
    forall i, j | 0 <= i < j < |qs| ensures MayPrecede(qs[i], qs[j]) {
      if i == k {
        AfterThePlace(ps, p, k, j - 1);
      } else if j == k {
        BeforeThePlace(ps, p, k, i);
      } else {
        var i', j' := if i < k then i else i - 1, if j < k then j else j - 1;
        assert MayPrecede(ps[i'], ps[j']);
      }
    }
    forall i | 0 <= i < |qs| ensures WellFormedSegments(qs[i].segments) {
      if i != k {
        assert WellFormedSegments(ps[if i < k then i else i - 1].segments);
      }
    }
  }

  lemma InsertKeepsParsed(ps: seq<Pattern>, p: Pattern, k: nat)
    requires AllParsed(ps) && IsParsed(p) && k <= |ps|
    ensures AllParsed(Insert(ps, k, p))
  {
    var qs := Insert(ps, k, p);
    forall i | 0 <= i < |qs| ensures IsParsed(qs[i]) {
      if i != k {
        assert IsParsed(ps[if i < k then i else i - 1]);
      }
    }
  }

  lemma InsertedTexts(ps: seq<Pattern>, p: Pattern, k: nat)
    requires k <= |ps|
    ensures Texts(Insert(ps, k, p)) == Texts(ps) + {p.text}
  {
    var qs := Insert(ps, k, p);
    assert qs[k] == p;
    assert forall q :: q in ps ==> q in ps[..k] || q in ps[k..];
    assert forall q :: q in qs <==> q in ps || q == p;
  }

  /** An ordered list shows that its configuration is acceptable. */
  lemma OrderedIsAcceptable(ps: seq<Pattern>)
    requires Ordered(ps) && AllParsed(ps)
    ensures Acceptable(Texts(ps))
  {
    forall t, u | t in Texts(ps) && u in Texts(ps) ensures NoConflict(t, u) {
      var i :| 0 <= i < |ps| && ps[i].text == t;
      var j :| 0 <= j < |ps| && ps[j].text == u;
      assert IsParsed(ps[i]) && IsParsed(ps[j]);
      if i < j {
        assert MayPrecede(ps[i], ps[j]);
      } else if j < i {
        assert MayPrecede(ps[j], ps[i]);
        CompatibleSymmetric(ps[i], ps[j]);
      }
    }
  }

  // ---------- routing ----------

  datatype Routing = NoRoute | Crash | To(i: nat)

  predicate Crashes(p: Pattern, r: Request) {
    p.segments == [] && VerbAccepted(p.verb, r.verb)
  }

  /** First match from position `i` on; looking at a pattern without segments fails when its
      verb does not rule the request out. */
  function RouteFrom(ps: seq<Pattern>, r: Request, i: nat): (route: Routing)
    ensures route.To? ==> i <= route.i < |ps| && Accepts(ps[route.i], r)
    decreases |ps| - i
  {
    if i >= |ps| then NoRoute
    else if Crashes(ps[i], r) then Crash
    else if Accepts(ps[i], r) then To(i)
    else RouteFrom(ps, r, i + 1)
  }

  lemma {:induction false} RouteFromMeaning(ps: seq<Pattern>, r: Request, i: nat)
    ensures RouteFrom(ps, r, i) == NoRoute ==>
              forall j {:trigger Accepts(ps[j], r)} :: i <= j < |ps| ==> !Accepts(ps[j], r)
    ensures RouteFrom(ps, r, i).To? ==>
              forall j {:trigger Accepts(ps[j], r)} :: i <= j < RouteFrom(ps, r, i).i ==> !Accepts(ps[j], r)
    ensures RouteFrom(ps, r, i) == Crash ==>
              exists j {:trigger Crashes(ps[j], r)} :: i <= j < |ps| && Crashes(ps[j], r)
    decreases |ps| - i
  {
    if i < |ps| {
      RouteFromMeaning(ps, r, i + 1);
    }
  }

  /** `p` accepts the request and is strictly more specific than every other pattern that does. */
  ghost predicate MostSpecific(ps: seq<Pattern>, r: Request, p: Pattern) {
    && p in ps && Accepts(p, r)
    && forall q {:trigger Accepts(q, r)} :: q in ps && q != p && Accepts(q, r) ==> Meaning(p, q) == MoreSpecific
  }

  lemma EarlierMatchIsMoreSpecific(p: Pattern, q: Pattern, r: Request)
    requires MayPrecede(p, q) && WellFormedSegments(p.segments) && WellFormedSegments(q.segments)
    requires Accepts(p, r) && Accepts(q, r)
    ensures Meaning(p, q) == MoreSpecific
  {
    MeetIffNotDisjoint(p, q);
    ComparisonIsExact(p, q);
  }

  /** In an ordered list the first match is the most specific one. */
  lemma FirstMatchIsMostSpecific(ps: seq<Pattern>, r: Request)
    requires Ordered(ps) && AllWellFormed(ps) && RouteFrom(ps, r, 0).To?
    ensures MostSpecific(ps, r, ps[RouteFrom(ps, r, 0).i])
  {
    RouteFromMeaning(ps, r, 0);
    var i := RouteFrom(ps, r, 0).i;
    forall q | q in ps && q != ps[i] && Accepts(q, r) ensures Meaning(ps[i], q) == MoreSpecific {
      var j :| 0 <= j < |ps| && ps[j] == q;
      assert MayPrecede(ps[i], ps[j]);
      assert WellFormedSegments(ps[i].segments) && WellFormedSegments(ps[j].segments);
      EarlierMatchIsMoreSpecific(ps[i], ps[j], r);
    }
  }

  /** A pattern without segments can only stand beside patterns for other verbs, so when it is
      reached nothing else would have matched. */
  lemma CrashMeansNoMatch(ps: seq<Pattern>, r: Request, c: nat, j: nat)
    requires Ordered(ps) && c < |ps| && j < |ps| && Crashes(ps[c], r)
    ensures !Accepts(ps[j], r)
  {
    if c < j {
      assert MayPrecede(ps[c], ps[j]);
    } else if j < c {
      assert MayPrecede(ps[j], ps[c]);
    }
  }

  lemma {:induction false} CrashIfNoMatch(ps: seq<Pattern>, r: Request, i: nat, c: nat)
    requires i <= c < |ps| && Crashes(ps[c], r)
    requires forall j {:trigger Accepts(ps[j], r)} :: i <= j < |ps| ==> !Accepts(ps[j], r)
    ensures RouteFrom(ps, r, i) == Crash
    decreases c - i
  {
    if i < c {
      CrashIfNoMatch(ps, r, i + 1, c);
    }
  }

  lemma RootPathParses()
    ensures Parse("/") == Ok(Pattern("/", "", []))
  {
    assert ' ' !in "/" && '/' in "/";
  }

  /** Some configured path is "/" for a verb. */
  ghost predicate HasRootFor(texts: set<string>, verb: string) {
    exists t {:trigger PathOf(t)} :: t in texts && PathOf(t) == "/" && VerbAccepted(VerbOf(t), verb)
  }

  lemma CrashesAtRoot(p: Pattern, r: Request)
    requires IsParsed(p)
    ensures Crashes(p, r) <==> PathOf(p.text) == "/" && VerbAccepted(VerbOf(p.text), r.verb)
  {
    ParseMeaning(p.text);
  }

  /** A loaded list crashes on a request exactly when a configured path is "/" for its verb,
      whatever path is requested. */
  lemma CrashIffRoot(ps: seq<Pattern>, r: Request)
    requires Ordered(ps) && AllParsed(ps)
    ensures RouteFrom(ps, r, 0) == Crash <==> HasRootFor(Texts(ps), r.verb)
  {
    if RouteFrom(ps, r, 0) == Crash {
      RouteFromMeaning(ps, r, 0);
      var c :| 0 <= c < |ps| && Crashes(ps[c], r);
      assert IsParsed(ps[c]) && ps[c].text in Texts(ps);
      CrashesAtRoot(ps[c], r);
    }
    if HasRootFor(Texts(ps), r.verb) {
      var t :| t in Texts(ps) && PathOf(t) == "/" && VerbAccepted(VerbOf(t), r.verb);
      var c :| 0 <= c < |ps| && ps[c].text == t;
      assert IsParsed(ps[c]);
      CrashesAtRoot(ps[c], r);
      forall j | 0 <= j < |ps| ensures !Accepts(ps[j], r) {
        CrashMeansNoMatch(ps, r, c, j);
      }
      CrashIfNoMatch(ps, r, 0, c);
    }
  }

  /** Comparing two configured paths fails exactly when one of them is "/", the other is not, and
      their verbs can meet. */
  lemma ComparableIffRoots(t: string, u: string)
    requires Parse(t).Ok? && Parse(u).Ok?
    ensures Comparable(Parse(t).value, Parse(u).value) <==>
              CompareVerbs(VerbOf(t), VerbOf(u)) == Disjoint || (PathOf(t) == "/" <==> PathOf(u) == "/")
  {
    RootHasNoSegments(t);
    RootHasNoSegments(u);
  }

  lemma RootHasNoSegments(t: string)
    requires Parse(t).Ok?
    ensures Parse(t).value.verb == VerbOf(t) && (Parse(t).value.segments == [] <==> PathOf(t) == "/")
  {
    ParseMeaning(t);
  }

  /** The configuration of the path "/" alone is loaded, and then every request crashes. */
  lemma RootPathLoadsAndCrashes(ps: seq<Pattern>, r: Request)
    requires Ordered(ps) && AllParsed(ps) && Texts(ps) == {"/"}
    ensures Acceptable({"/"}) && RouteFrom(ps, r, 0) == Crash
  {
    OrderedIsAcceptable(ps);
    RootPathParses();
    assert PathOf("/") == "/";
    CrashIffRoot(ps, r);
  }

  /** A name that stands for itself in a path. */
  predicate Plain(s: string) {
    s != "" && '/' !in s && '{' !in s && ' ' !in s && !EndsInDots(s)
  }

  /** A path of a plain literal and a segment with a plain name is parsed to them. */
  lemma TwoSegments(a: string, b: Segment, text: string)
    requires Plain(a) && Plain(b.s) && !b.multi
    requires text == "/" + a + ("/" + SegmentText(b))
    ensures Parse(text) == Ok(Pattern(text, "", [Segment(a, false, false), b]))
  {
    var ss := [Segment(a, false, false), b];
    assert ss[1..] == [b] && [b][1..] == [];
    assert PathText([b], false) == "/" + SegmentText(b) + "" == "/" + SegmentText(b);
    ParseComplete(Pattern(text, "", ss), false);
  }

  /** A literal is nested in an identifier at the same place. */
  lemma NestedSegments(a: Segment, b: Segment, id: Segment, xs: seq<string>)
    requires !a.identifier && !b.identifier && id.identifier && !a.multi && !b.multi && !id.multi
    ensures PathRelation([a, b], [a, id]) == MoreSpecific
    ensures xs == [a.s, b.s] ==> PathAccepted([a, b], xs) && PathAccepted([a, id], xs)
  {
    assert [a, b][1..] == [b] && [a, id][1..] == [id] && [b][1..] == [] == [id][1..];
    assert PathRelation([b], [id]) == MoreSpecific;
    assert xs == [a.s, b.s] ==> xs[1..] == [b.s] && [b.s][1..] == [];
  }

  lemma PairAcceptable(t: string, u: string)
    requires Parse(t).Ok? && Parse(u).Ok? && Compatible(Parse(t).value, Parse(u).value)
    ensures Acceptable({t, u})
  {
    CompatibleSymmetric(Parse(t).value, Parse(u).value);
  }

  /** Two loaded patterns can match one request: with plain names a path such as "/foo/bar" and
      the path "/foo/{id}" are loaded together and both match the former. */
  lemma NestedPathsMatchTogether(a: string, b: string, id: string, verb: string)
    requires Plain(a) && Plain(b) && Plain(id)
    ensures var t, u := "/" + a + ("/" + b), "/" + a + ("/" + ("{" + id + "}"));
            && Acceptable({t, u})
            && Parse(t).Ok? && Accepts(Parse(t).value, RawRequest(verb, [a, b]))
            && Parse(u).Ok? && Accepts(Parse(u).value, RawRequest(verb, [a, b]))
  {
    var t, u := "/" + a + ("/" + b), "/" + a + ("/" + ("{" + id + "}"));
    var foo, bar, any := Segment(a, false, false), Segment(b, false, false), Segment(id, true, false);
    assert "{" + id + "" + "}" == "{" + id + "}";
    TwoSegments(a, bar, t);
    TwoSegments(a, any, u);
    NestedSegments(foo, bar, any, [a, b]);
    PairAcceptable(t, u);
  }

  lemma SamePatterns(ps: seq<Pattern>, qs: seq<Pattern>)
    requires AllParsed(ps) && AllParsed(qs) && Texts(ps) == Texts(qs)
    ensures forall p :: p in ps <==> p in qs
  {
    forall p | p in ps ensures p in qs { Twin(ps, qs, p); }
    forall p | p in qs ensures p in ps { Twin(qs, ps, p); }
  }

  lemma Twin(ps: seq<Pattern>, qs: seq<Pattern>, p: Pattern)
    requires AllParsed(ps) && AllParsed(qs) && Texts(ps) == Texts(qs) && p in ps
    ensures p in qs
  {
    assert p.text in Texts(qs);
    var i :| 0 <= i < |ps| && ps[i] == p;
    var j :| 0 <= j < |qs| && qs[j].text == p.text;
    assert IsParsed(ps[i]) && IsParsed(qs[j]);
  }

  lemma RouteCarriesOver(ps: seq<Pattern>, qs: seq<Pattern>, r: Request)
    requires Ordered(ps) && RouteFrom(ps, r, 0).To?
    requires Ordered(qs)
    requires forall p :: p in ps <==> p in qs
    ensures RouteFrom(qs, r, 0).To?
  {
    RouteFromMeaning(qs, r, 0);
    var p := ps[RouteFrom(ps, r, 0).i];
    assert p in qs;
    var j :| 0 <= j < |qs| && qs[j] == p;
    if RouteFrom(qs, r, 0) == Crash {
      var c :| 0 <= c < |qs| && Crashes(qs[c], r);
      CrashMeansNoMatch(qs, r, c, j);
    }
  }

  /** Two lists loaded from one configuration, in whatever order its paths were visited, route
      every request to the same pattern. */
  lemma RoutingIgnoresLoadOrder(ps: seq<Pattern>, qs: seq<Pattern>, r: Request)
    requires Ordered(ps) && AllWellFormed(ps) && AllParsed(ps)
    requires Ordered(qs) && AllWellFormed(qs) && AllParsed(qs)
    requires Texts(ps) == Texts(qs)
    ensures RouteFrom(ps, r, 0) == Crash <==> RouteFrom(qs, r, 0) == Crash
    ensures RouteFrom(ps, r, 0).To? <==> RouteFrom(qs, r, 0).To?
    ensures RouteFrom(ps, r, 0).To? ==> ps[RouteFrom(ps, r, 0).i] == qs[RouteFrom(qs, r, 0).i]
  {
    SamePatterns(ps, qs);
    CrashIffRoot(ps, r);
    CrashIffRoot(qs, r);
    if RouteFrom(ps, r, 0).To? { RouteCarriesOver(ps, qs, r); }
    if RouteFrom(qs, r, 0).To? { RouteCarriesOver(qs, ps, r); }
    if RouteFrom(ps, r, 0).To? {
      FirstMatchIsMostSpecific(ps, r);
      FirstMatchIsMostSpecific(qs, r);
      var p, q := ps[RouteFrom(ps, r, 0).i], qs[RouteFrom(qs, r, 0).i];
      assert p in qs && q in ps;
    }
  }

  // ---------- the manager ----------

  /** What `Allow` decided. `Passed` requests met no limiter. */
  datatype Verdict =
    | Passed
    | Limited(served: Served)
    | Reported(wait: Duration)
    | Crashed

  function Decide(served: Served, mode: Mode): Verdict {
    if served.Denied? && mode == Reporting then Reported(served.wait) else Limited(served)
  }

  /** The pair that callers see, for the decisions that return. */
  function Reply(v: Verdict): (bool, Duration)
    requires v != Crashed
  {
    if v.Limited? && v.served.Denied? then (false, v.served.wait) else (true, 0)
  }

  /** One call of `Allow`: the request, and the times of the two questions to the limiter. */
  datatype RawVisit = RawVisit(verb: string, path: string, key: string, now: int, later: int)

  /** A requested path is never empty. */
  type Visit = c: RawVisit | c.path != "" witness RawVisit("", "/", "", 0, 0)

  function RouteOf(ps: seq<Pattern>, c: Visit): (route: Routing)
    ensures route.To? ==> route.i < |ps|
  {
    RouteFrom(ps, RawRequest(c.verb, Split(c.path[1..], '/')), 0)
  }

  /** The requested path is cut at its slashes, behind the first one. */
  lemma RoutesByPieces(ps: seq<Pattern>, c: Visit, xs: seq<string>)
    requires xs != [] && (forall k :: 0 <= k < |xs| ==> '/' !in xs[k]) && c.path == "/" + Join(xs, '/')
    ensures RouteOf(ps, c) == RouteFrom(ps, RawRequest(c.verb, xs), 0)
  {
    SplitJoin(xs, '/');
    assert c.path[1..] == Join(xs, '/');
  }

  /** Some configured text covers the request. */
  ghost predicate CoveredBy(texts: set<string>, c: Visit) {
    exists t {:trigger TextCovers(t, c.verb, c.path)} :: t in texts && TextCovers(t, c.verb, c.path)
  }

  /** A loaded list routes exactly the requests that a configured text covers, to a pattern whose
      text covers them. */
  lemma RoutedIffCovered(ps: seq<Pattern>, c: Visit)
    requires Ordered(ps) && AllParsed(ps)
    ensures RouteOf(ps, c).To? <==> CoveredBy(Texts(ps), c)
    ensures RouteOf(ps, c).To? ==> TextCovers(ps[RouteOf(ps, c).i].text, c.verb, c.path)
  {
    var r: Request := RawRequest(c.verb, Split(c.path[1..], '/'));
    RouteFromMeaning(ps, r, 0);
    if RouteOf(ps, c).To? {
      var p := ps[RouteOf(ps, c).i];
      assert IsParsed(p) && p.text in Texts(ps);
      AcceptsIffCovers(p.text, c.verb, c.path);
    }
    if CoveredBy(Texts(ps), c) {
      var t :| t in Texts(ps) && TextCovers(t, c.verb, c.path);
      var j :| 0 <= j < |ps| && ps[j].text == t;
      assert IsParsed(ps[j]);
      AcceptsIffCovers(t, c.verb, c.path);
      if RouteOf(ps, c) == Crash {
        var i :| 0 <= i < |ps| && Crashes(ps[i], r);
        CrashMeansNoMatch(ps, r, i, j);
      }
    }
  }

  /** A configured path without names, and without a slash at its end, routes the request for the
      same path. */
  lemma SamePathIsRouted(ps: seq<Pattern>, c: Visit, t: string)
    requires Ordered(ps) && AllParsed(ps) && t in Texts(ps) && VerbAccepted(VerbOf(t), c.verb)
    requires c.path == PathOf(t) && |c.path| > 1 && '{' !in c.path && c.path[|c.path| - 1] != '/'
    ensures RouteOf(ps, c).To?
  {
    JoinSplit(c.path[1..], '/');
    NoEmptyLast(Split(c.path[1..], '/'));
    LiteralCovers(t, c.verb, c.path);
    RoutedIffCovered(ps, c);
  }

  /** With a slash at its end such a path does not cover the request for the same path. */
  lemma SamePathWithSlashIsNotCovered(c: Visit, t: string)
    requires c.path == PathOf(t) && '{' !in c.path && HasTrailingSlash(c.path)
    ensures !TextCovers(t, c.verb, c.path)
  {
    LiteralCovers(t, c.verb, c.path);
  }

  /** A request served by one limiter. */
  function ServeView(v: View, cfg: seq<WindowConfig>, c: Visit, fetched: Option<seq<WindowConfig>>): (View, Served) {
    var (ws, served) := Serve(WindowsOf(v, c.key, cfg), c.now, c.later, fetched);
    (v[c.key := ws], served)
  }

  /** `Allow` on the windows of all limiters: only those of the first matching pattern change, and
      only for the key. */
  function AllowVisit(ps: seq<Pattern>, cfgs: seq<seq<WindowConfig>>, views: seq<View>, mode: Mode, c: Visit,
                      fetched: Option<seq<WindowConfig>>): (r: (seq<View>, Verdict))
    requires |ps| == |cfgs| == |views|
    ensures |r.0| == |views|
  {
    match RouteOf(ps, c)
    case NoRoute => (views, Passed)
    case Crash => (views, Crashed)
    case To(i) =>
      var (after, served) := ServeView(views[i], cfgs[i], c, fetched);
      (views[i := after], Decide(served, mode))
  }

  /** A call is refused in enforcing mode only, by the first window that is full when it is last
      asked; the caller is told to wait for the rest of that window, which is positive exactly
      when the window has not expired yet. */
  lemma RefusalMeaning(ws: seq<WindowState>, c: Visit, fetched: Option<seq<WindowConfig>>, mode: Mode)
    returns (i: nat)
    requires !Reply(Decide(Serve(ws, c.now, c.later, fetched).1, mode)).0
    ensures mode == Enforcing
    ensures var after := Serve(ws, c.now, c.later, fetched).0;
            var wait := Reply(Decide(Serve(ws, c.now, c.later, fetched).1, mode)).1;
            i < |after| && IsDenialBy(after[i], if fetched.Some? then c.later else c.now, wait)
  {
    i := DenialWait(ws, c.now, c.later, fetched);
  }

  ghost predicate IsPart(l: MultiBucketFixedWindowLimiter, repr: set<object>)
    reads repr
  {
    l in repr && l.Repr <= repr && l.Valid()
  }

  /** Every limiter of the list lies within `repr`, and no two of them share anything. */
  ghost predicate Separate(ls: seq<MultiBucketFixedWindowLimiter>, repr: set<object>)
    reads repr
  {
    && (forall i {:trigger IsPart(ls[i], repr)} :: 0 <= i < |ls| ==> IsPart(ls[i], repr))
    && (forall i, j {:trigger Apart(ls[i], ls[j], repr)} :: 0 <= i < j < |ls| ==> Apart(ls[i], ls[j], repr))
  }

  ghost predicate Apart(l: MultiBucketFixedWindowLimiter, m: MultiBucketFixedWindowLimiter, repr: set<object>)
    reads repr
  {
    l in repr && m in repr && l.Repr !! m.Repr
  }

  ghost function ViewsOf(ls: seq<MultiBucketFixedWindowLimiter>, repr: set<object>): (views: seq<View>)
    requires Separate(ls, repr)
    reads repr
    ensures |views| == |ls|
  {
    seq(|ls|, i requires 0 <= i < |ls| && IsPart(ls[i], repr) reads repr => ls[i].Contents())
  }

  lemma InsertLimiter(ls: seq<MultiBucketFixedWindowLimiter>, repr: set<object>, k: nat,
                                         l: MultiBucketFixedWindowLimiter)
    requires Separate(ls, repr) && l.Valid() && l.Repr !! repr && k <= |ls|
    ensures Separate(Insert(ls, k, l), repr + l.Repr)
  {
    var ms, all := Insert(ls, k, l), repr + l.Repr;
    forall i | 0 <= i < |ls| ensures IsPart(ls[i], all) && Apart(ls[i], l, all) {
      assert IsPart(ls[i], repr);
    }
    forall i | 0 <= i < |ms| ensures IsPart(ms[i], all) {
      if i != k {
        assert IsPart(ls[if i < k then i else i - 1], all);
      }
    }
    forall i, j | 0 <= i < j < |ms| ensures Apart(ms[i], ms[j], all) {
      if i != k && j != k {
        assert Apart(ls[if i < k then i else i - 1], ls[if j < k then j else j - 1], repr);
      } else {
        assert Apart(ls[if i == k then j - 1 else i], l, all);
      }
    }
  }

  lemma InsertView(ls: seq<MultiBucketFixedWindowLimiter>, repr: set<object>, k: nat,
                                      l: MultiBucketFixedWindowLimiter)
    requires Separate(ls, repr) && l.Valid() && k <= |ls| && Separate(Insert(ls, k, l), repr + l.Repr)
    ensures ViewsOf(Insert(ls, k, l), repr + l.Repr) == Insert(ViewsOf(ls, repr), k, l.Contents())
  {
    forall i | 0 <= i < |ls| ensures IsPart(ls[i], repr) {}
  }

  predicate Configures(paths: map<string, seq<WindowConfig>>, p: Pattern, l: MultiBucketFixedWindowLimiter) {
    p.text in paths && l.cfg == paths[p.text]
  }

  /** Limiter `i` was configured by the path of pattern `i`. */
  ghost predicate Follow(ls: seq<MultiBucketFixedWindowLimiter>, ps: seq<Pattern>, paths: map<string, seq<WindowConfig>>) {
    |ps| == |ls|
    && forall i {:trigger Configures(paths, ps[i], ls[i])} :: 0 <= i < |ps| ==> Configures(paths, ps[i], ls[i])
  }

  lemma InsertFollows(ls: seq<MultiBucketFixedWindowLimiter>, ps: seq<Pattern>, k: nat,
                                         l: MultiBucketFixedWindowLimiter, p: Pattern, paths: map<string, seq<WindowConfig>>)
    requires Follow(ls, ps, paths) && Configures(paths, p, l) && k <= |ls|
    ensures Follow(Insert(ls, k, l), Insert(ps, k, p), paths)
  {
    var ms, qs := Insert(ls, k, l), Insert(ps, k, p);
    forall i | 0 <= i < |qs| ensures Configures(paths, qs[i], ms[i]) {
      if i != k {
        var j := if i < k then i else i - 1;
        assert Configures(paths, ps[j], ls[j]);
      }
    }
  }

  /** One more path is loaded: its pattern and its unused limiter stand at place `k`. */
  lemma LoadsOneMore(ps: seq<Pattern>, ls: seq<MultiBucketFixedWindowLimiter>, k: nat, p: Pattern,
                                        l: MultiBucketFixedWindowLimiter, paths: map<string, seq<WindowConfig>>)
    requires Follow(ls, ps, paths) && Configures(paths, p, l) && k <= |ls|
    ensures Follow(Insert(ls, k, l), Insert(ps, k, p), paths)
    ensures Texts(Insert(ps, k, p)) == Texts(ps) + {p.text}
    ensures Insert(NoWindows(|ls|), k, map[]) == NoWindows(|Insert(ls, k, l)|)
  {
    InsertFollows(ls, ps, k, l, p, paths);
    InsertedTexts(ps, p, k);
  }

  /** The limiter's part of `Allow`: count the request, or install the overrides and ask again. */
  method ServeKey(limiter: MultiBucketFixedWindowLimiter, c: Visit, fetched: Option<seq<WindowConfig>>)
    returns (served: Served)
    requires limiter.Valid()
    modifies limiter.Repr
    ensures limiter.Valid() && fresh(limiter.Repr - old(limiter.Repr))
    ensures (limiter.Contents(), served) == ServeView(old(limiter.Contents()), limiter.cfg, c, fetched)
  {
    ghost var was := limiter.Contents();
    ghost var (ws, answer) := AllowAll(WindowsOf(was, c.key, limiter.cfg), c.now);
    var a := limiter.Allow(c.key, c.now);
    assert a == answer && limiter.Contents() == was[c.key := ws];
    if a.ok {
      return Counted;
    }
    if fetched.None? {
      return Denied(a.wait);
    }
    limiter.OverrideWindows(c.key, fetched.value);
    assert limiter.Contents() == was[c.key := Override(ws, fetched.value)];
    var b := limiter.WouldAllow(c.key, c.later);
    return if b.ok then Uncounted else Denied(b.wait);
  }

  class Manager {
    var enabled: bool
    var mode: Mode
    var patterns: seq<Pattern>
    var limiters: seq<MultiBucketFixedWindowLimiter>
    ghost var Parts: set<object>  // the limiters and their windows

    ghost predicate Valid()
      reads this`patterns, this`limiters, this`Parts, Parts
    {
      && |patterns| == |limiters|
      && Ordered(patterns) && AllWellFormed(patterns) && AllParsed(patterns)
      && Owned()
    }

    ghost predicate Owned()
      reads this`limiters, this`Parts, Parts
    {
      this !in Parts && Separate(limiters, Parts)
    }

    /** The windows of all keys, limiter by limiter. */
    ghost function Views(): (views: seq<View>)
      requires Owned()
      reads this`limiters, this`Parts, Parts
      ensures |views| == |limiters|
    {
      ViewsOf(limiters, Parts)
    }

    constructor ()
      ensures Valid() && patterns == [] && !enabled
    {
      enabled, mode, patterns, limiters, Parts := false, Reporting, [], [], {};
    }

    /** Checks a new pattern against all loaded ones and finds its place. */
    method FindPlace(p: Pattern) returns (r: Result<nat, LoadError>)
      requires AllWellFormed(patterns) && WellFormedSegments(p.segments)
      ensures r.Ok? ==> IsPlace(patterns, p, r.value)
      ensures r.Err? ==> exists i {:trigger IsClash(p, patterns[i], r.error)} ::
                           0 <= i < |patterns| && IsClash(p, patterns[i], r.error)
    {
      var place := -1;
      var idx := 0;
      while idx < |patterns|
        invariant 0 <= idx <= |patterns|
        invariant forall i {:trigger Compatible(p, patterns[i])} :: 0 <= i < idx ==> Compatible(p, patterns[i])
        invariant -1 <= place < idx
        invariant forall i {:trigger SyntacticRelation(p, patterns[i])} ::
                    0 <= i < (if place == -1 then idx else place) ==>
                      SyntacticRelation(p, patterns[i]) != MoreSpecific
        invariant place != -1 ==> SyntacticRelation(p, patterns[place]) == MoreSpecific
      {
        var q := patterns[idx];
        assert WellFormedSegments(patterns[idx].segments);
        if !Comparable(p, q) {
          assert IsClash(p, patterns[idx], IndexFailure(p.text, q.text));
          return Err(IndexFailure(p.text, q.text));
        }
        var relation := ComparePathsAndVerbs(p, q);
        if relation == Equivalent || relation == Overlaps {
          assert IsClash(p, patterns[idx], Conflict(p.text, q.text));
          return Err(Conflict(p.text, q.text));
        }
        if relation == MoreSpecific && place == -1 {
          place := idx;
        }
        idx := idx + 1;
      }
      return Ok(if place == -1 then |patterns| else place);
    }

    ghost function Configs(): (cfgs: seq<seq<WindowConfig>>)
      reads this
      ensures |cfgs| == |limiters|
    {
      seq(|limiters|, i requires 0 <= i < |limiters| reads this => limiters[i].cfg)
    }

    /** Inserts a new limiter at place `k`. */
    method AddLimiter(windows: seq<WindowConfig>, k: nat)
      requires Owned() && k <= |limiters|
      modifies this`limiters, this`Parts
      ensures Owned() && fresh(Parts - old(Parts))
      ensures k < |limiters| && limiters == Insert(old(limiters), k, limiters[k]) && limiters[k].cfg == windows
      ensures Views() == Insert(old(Views()), k, map[])
    {
      var limiter := new MultiBucketFixedWindowLimiter(windows);
      InsertLimiter(limiters, Parts, k, limiter);
      InsertView(limiters, Parts, k, limiter);
      Parts := Parts + limiter.Repr;
      limiters := Insert(limiters, k, limiter);
    }

    /** One path of a configuration: parse it, check it, and insert its pattern and limiter at
        the same place `k`. */
    method AddPath(text: string, windows: seq<WindowConfig>) returns (error: Option<LoadError>, ghost k: nat)
      requires Valid()
      modifies this`patterns, this`limiters, this`Parts
      ensures Valid() && fresh(Parts - old(Parts))
      ensures error.None? ==>
                && k <= |old(patterns)| && k < |patterns|
                && patterns == Insert(old(patterns), k, patterns[k]) && patterns[k].text == text
                && limiters == Insert(old(limiters), k, limiters[k]) && limiters[k].cfg == windows
                && Views() == Insert(old(Views()), k, map[])
      ensures error.Some? ==>
                && patterns == old(patterns) && limiters == old(limiters) && Views() == old(Views())
                && Refused(patterns, text, error.value)
    {
      k := 0;
      var parsed := NewPattern(text);
      if parsed.Err? {
        return Some(BadPattern(text, parsed.error)), k;
      }
      var p := parsed.value;
      ParsedPattern(text);
      var place := FindPlace(p);
      if place.Err? {
        return Some(place.error), k;
      }
      k := place.value;
      InsertKeepsOrder(patterns, p, k);
      InsertKeepsParsed(patterns, p, k);
      AddLimiter(windows, place.value);
      patterns := Insert(patterns, place.value, p);
      return None, k;
    }

    /** The paths in `visited` are loaded, and no limiter has been used. */
    ghost predicate Loaded(paths: map<string, seq<WindowConfig>>, visited: set<string>)
      reads this`patterns, this`limiters, this`Parts, Parts
    {
      && Valid()
      && Texts(patterns) == visited
      && Follow(limiters, patterns, paths)
      && Views() == NoWindows(|limiters|)
    }

    /** The body of the loading loop. */
    method LoadPath(text: string, paths: map<string, seq<WindowConfig>>, ghost visited: set<string>)
      returns (error: Option<LoadError>)
      requires Loaded(paths, visited) && text in paths && visited <= paths.Keys - {text}
      modifies this`patterns, this`limiters, this`Parts
      ensures fresh(Parts - old(Parts))
      ensures error.None? ==> Loaded(paths, visited + {text})
      ensures error.Some? ==> Loaded(paths, visited) && Unloadable(error.value, paths.Keys)
    {
      ghost var before, limitersBefore := patterns, limiters;
      ghost var k;
      error, k := AddPath(text, paths[text]);
      if error.None? {
        LoadsOneMore(before, limitersBefore, k, patterns[k], limiters[k], paths);
      } else {
        Unacceptable(patterns, text, paths.Keys, error.value);
      }
    }

    /** Forgets what was loaded before. */
    method Clear(ghost paths: map<string, seq<WindowConfig>>)
      modifies this`patterns, this`limiters, this`Parts
      ensures Loaded(paths, {}) && Parts == {}
    {
      patterns, limiters, Parts := [], [], {};
    }

    /** The loading loop. The paths are visited in an arbitrary order. */
    method LoadPaths(paths: map<string, seq<WindowConfig>>) returns (error: Option<LoadError>, ghost visited: set<string>)
      requires Loaded(paths, {}) && Parts == {}
      modifies this`patterns, this`limiters, this`Parts
      ensures Loaded(paths, visited) && fresh(Parts)
      ensures error.None? ==> visited == paths.Keys
      ensures error.Some? ==> Unloadable(error.value, paths.Keys)
    {
      hide Loaded, Unloadable;
      var left := paths.Keys;
      visited := {};
      while left != {}
        invariant visited == paths.Keys - left && left <= paths.Keys
        invariant Loaded(paths, visited) && fresh(Parts)
        decreases |left|
      {
        var text :| text in left;
        error := LoadPath(text, paths, visited);
        if error.Some? {
          return;
        }
        left, visited := left - {text}, visited + {text};
      }
      error := None;
    }

    /** `parseConfig`. Whether loading succeeds does not depend on the order of the paths. */
    method ParseConfig(cfg: Config) returns (error: Option<LoadError>)
      modifies this
      ensures error.None? <==> Acceptable(cfg.paths.Keys)
      ensures error.Some? ==> Unloadable(error.value, cfg.paths.Keys)
      ensures Valid() && fresh(Parts)
      ensures Follow(limiters, patterns, cfg.paths) && Views() == NoWindows(|limiters|)
      ensures error.None? ==> Texts(patterns) == cfg.paths.Keys
      ensures enabled == cfg.enabled && mode == cfg.mode
    {
      enabled, mode := cfg.enabled, cfg.mode;
      Clear(cfg.paths);
      ghost var visited;
      error, visited := LoadPaths(cfg.paths);
      if error.None? {
        OrderedIsAcceptable(patterns);
      }
    }

    /** The loop of `Allow` over the patterns. */
    method FindRoute(r: Request) returns (route: Routing)
      requires AllWellFormed(patterns)
      ensures route == RouteFrom(patterns, r, 0)
    {
      var i := 0;
      while i < |patterns|
        invariant 0 <= i <= |patterns|
        invariant RouteFrom(patterns, r, 0) == RouteFrom(patterns, r, i)
      {
        var p := patterns[i];
        if p.segments == [] && VerbAccepted(p.verb, r.verb) {
          return Crash;
        }
        assert WellFormedSegments(patterns[i].segments);
        var matched := Match(p, r);
        if matched {
          return To(i);
        }
        i := i + 1;
      }
      return NoRoute;
    }

    /** Limiter `i` served a request and may have created windows; the others did not change. */
    twostate lemma StillSeparate(i: nat)
      requires unchanged(this) && i < |limiters|
      requires old(Separate(limiters, Parts))
      requires limiters[i].Valid() && fresh(limiters[i].Repr - old(limiters[i].Repr))
      requires forall o :: o in Parts && o !in old(limiters[i].Repr) ==> unchanged(o)
      ensures Separate(limiters, Parts + limiters[i].Repr)
      ensures ViewsOf(limiters, Parts + limiters[i].Repr) == old(ViewsOf(limiters, Parts))[i := limiters[i].Contents()]
    {
      var ls, all := limiters, Parts + limiters[i].Repr;
      assert old(IsPart(ls[i], Parts));
      forall j | 0 <= j < |ls| && j != i
        ensures IsPart(ls[j], all) && Apart(ls[i], ls[j], all) && ls[j].Repr == old(ls[j].Repr)
        ensures old(ls[j].Valid()) && ls[j].Valid() && ls[j].Contents() == old(ls[j].Contents())
      {
        assert old(IsPart(ls[j], Parts));
        assert if i < j then old(Apart(ls[i], ls[j], Parts)) else old(Apart(ls[j], ls[i], Parts));
        assert unchanged(ls[j]);
        assert unchanged(ls[j].Repr);
      }
      forall j | 0 <= j < |ls| ensures IsPart(ls[j], all) {}
      forall j, k | 0 <= j < k < |ls| ensures Apart(ls[j], ls[k], all) {
        if j != i && k != i {
          assert old(Apart(ls[j], ls[k], Parts));
          assert IsPart(ls[j], all) && IsPart(ls[k], all);
        } else {
          assert Apart(ls[i], ls[if j == i then k else j], all);
        }
      }
    }

    /** Serves a request by limiter `i`. */
    method ServeAt(i: nat, c: Visit, fetched: Option<seq<WindowConfig>>) returns (served: Served)
      requires Valid() && i < |limiters|
      modifies this`Parts, Parts
      ensures Valid() && fresh(Parts - old(Parts))
      ensures var (after, answer) := ServeView(old(Views())[i], Configs()[i], c, fetched);
              served == answer && Views() == old(Views())[i := after]
    {
      assert IsPart(limiters[i], Parts);
      served := ServeKey(limiters[i], c, fetched);
      StillSeparate(i);
      Parts := Parts + limiters[i].Repr;
    }

    /** `Allow`; `fetched` is the override answer for the key and the pattern. It crashes exactly
        when a configured path is "/" for the request's verb. */
    method Allow(c: Visit, fetched: Option<seq<WindowConfig>>) returns (v: Verdict)
      requires Valid()
      modifies this`Parts, Parts
      ensures Valid() && fresh(Parts - old(Parts))
      ensures !enabled ==> v == Passed && Views() == old(Views())
      ensures enabled ==> (Views(), v) == AllowVisit(patterns, Configs(), old(Views()), mode, c, fetched)
      ensures v == Crashed <==> enabled && HasRootFor(Texts(patterns), c.verb)
      ensures v == Passed <==> !enabled || (!HasRootFor(Texts(patterns), c.verb) && !CoveredBy(Texts(patterns), c))
      ensures v != Crashed && mode == Reporting ==> Reply(v) == (true, 0)
    {
      if !enabled {
        return Passed;
      }
      ghost var r := RawRequest(c.verb, Split(c.path[1..], '/'));
      CrashIffRoot(patterns, r);
      RoutedIffCovered(patterns, c);
      var route := FindRoute(RawRequest(c.verb, Split(c.path[1..], '/')));
      match route {
        case NoRoute =>
          return Passed;
        case Crash =>
          return Crashed;
        case To(i) =>
          var served := ServeAt(i, c, fetched);
          return Decide(served, mode);
      }
    }
  }

  lemma ParsedPattern(text: string)
    requires Parse(text).Ok?
    ensures var p := Parse(text).value; p.text == text && IsParsed(p) && WellFormedSegments(p.segments)
  {
    ParseMeaning(text);
  }
}
