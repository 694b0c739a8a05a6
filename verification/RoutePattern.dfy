/** Route patterns of the rate limiter: what a pattern accepts, and the syntactic
    comparison of two patterns, proved to compute the relationship of the request
    sets the patterns accept. */
module RoutePattern {

  /** One piece of a pattern: a literal, `{name}` or `{name...}`. */
  datatype Segment = Segment(s: string, identifier: bool, multi: bool)

  /** `text` is the configured string; an empty `verb` stands for any HTTP method. */
  datatype Pattern = Pattern(text: string, verb: string, segments: seq<Segment>)

  datatype RawRequest = RawRequest(verb: string, path: seq<string>)

  /** Splitting a path on '/' never yields zero pieces. */
  type Request = r: RawRequest | |r.path| > 0 witness RawRequest("", [""])

  datatype Relationship = Equivalent | MoreGeneral | MoreSpecific | Disjoint | Overlaps

  /** Only the last segment may be a multi, and a multi is an identifier. */
  predicate WellFormedSegments(ss: seq<Segment>) {
    forall i :: 0 <= i < |ss| && ss[i].multi ==> ss[i].identifier && i == |ss| - 1
  }

  predicate WellFormed(p: Pattern) {
    |p.segments| > 0 && WellFormedSegments(p.segments)
  }

  // ---------- what a pattern accepts ----------

  predicate VerbAccepted(v: string, verb: string) {
    v == "" || v == verb
  }

  predicate SegmentAccepted(s: Segment, x: string) {
    s.identifier || s.s == x
  }

  /** The reference meaning of a list of segments, piece by piece. */
  predicate PathAccepted(ss: seq<Segment>, xs: seq<string>) {
    if ss == [] then xs == []
    else if ss[0].multi then xs != []
    else xs != [] && SegmentAccepted(ss[0], xs[0]) && PathAccepted(ss[1..], xs[1..])
  }

  predicate Accepts(p: Pattern, r: Request) {
    VerbAccepted(p.verb, r.verb) && PathAccepted(p.segments, r.path)
  }

  ghost predicate Includes(p: Pattern, q: Pattern) {
    forall r: Request :: Accepts(q, r) ==> Accepts(p, r)
  }

  ghost predicate Meet(p: Pattern, q: Pattern) {
    exists r: Request :: Accepts(p, r) && Accepts(q, r)
  }

  /** The relationship of the two request sets: what the comparison is meant to return. */
  ghost function Meaning(p: Pattern, q: Pattern): Relationship {
    if Includes(p, q) && Includes(q, p) then Equivalent
    else if Includes(p, q) then MoreGeneral
    else if Includes(q, p) then MoreSpecific
    else if Meet(p, q) then Overlaps
    else Disjoint
  }

  // ---------- matching ----------

  lemma {:induction false} LengthNeeded(ss: seq<Segment>, xs: seq<string>)
    requires WellFormedSegments(ss) && PathAccepted(ss, xs)
    ensures |xs| >= |ss|
    ensures |xs| > |ss| ==> ss != [] && ss[|ss| - 1].multi
  {
    if ss != [] && !ss[0].multi {
      LengthNeeded(ss[1..], xs[1..]);
    }
  }

  /** `match`: the length tests first, then one pass over the segments. It needs a last
      segment to look at, unless the method already rules the request out. */
  method Match(p: Pattern, r: Request) returns (ok: bool)
    requires p.segments != [] || !VerbAccepted(p.verb, r.verb)
    requires WellFormedSegments(p.segments)
    ensures ok == Accepts(p, r)
  {
    if p.verb != "" && p.verb != r.verb {
      return false;
    }
    if PathAccepted(p.segments, r.path) {
      LengthNeeded(p.segments, r.path);
    }
    if |r.path| != |p.segments| {
      if !p.segments[|p.segments| - 1].multi {
        return false;
      }
      if |r.path| < |p.segments| {
        return false;
      }
    }
    var i := 0;
    while i < |p.segments|
      invariant 0 <= i <= |p.segments|
      invariant PathAccepted(p.segments[i..], r.path[i..]) == PathAccepted(p.segments, r.path)
      invariant i == |p.segments| ==> |r.path| == |p.segments|
    {
      var seg := p.segments[i];
      assert p.segments[i..][1..] == p.segments[i + 1..] && r.path[i..][1..] == r.path[i + 1..];
      if seg.multi {
        return true;
      }
      if !seg.identifier && r.path[i] != seg.s {
        return false;
      }
      i := i + 1;
    }
    return true;
  }

  // ---------- the comparison ----------

  function Inverse(r: Relationship): Relationship {
    match r
    case MoreSpecific => MoreGeneral
    case MoreGeneral => MoreSpecific
    case _ => r
  }

  function Combine(r1: Relationship, r2: Relationship): Relationship {
    match r1
    case Equivalent => r2
    case Disjoint => Disjoint
    case Overlaps => if r2 == Disjoint then Disjoint else Overlaps
    case _ =>
      if r2 == Equivalent then r1
      else if r2 == Inverse(r1) then Overlaps
      else r2
  }

  function CompareVerbs(v1: string, v2: string): Relationship {
    if v1 == v2 then Equivalent
    else if v1 == "" then MoreGeneral
    else if v2 == "" then MoreSpecific
    else Disjoint
  }

  function CompareSegments(s1: Segment, s2: Segment): Relationship {
    if s1.multi && s2.multi then Equivalent
    else if s1.multi then MoreGeneral
    else if s2.multi then MoreSpecific
    else if s1.identifier && s2.identifier then Equivalent
    else if s1.identifier then MoreGeneral
    else if s2.identifier then MoreSpecific
    else if s1.s == s2.s then Equivalent
    else Disjoint
  }

  /** The relationship of two segment lists, computed from the front. */
  function PathRelation(s1: seq<Segment>, s2: seq<Segment>): Relationship {
    if s1 == [] && s2 == [] then Equivalent
    else if s1 == [] || s2 == [] then Disjoint
    else if s1[0].multi || s2[0].multi then CompareSegments(s1[0], s2[0])
    else Combine(CompareSegments(s1[0], s2[0]), PathRelation(s1[1..], s2[1..]))
  }

  /** The first of two meeting sets includes the second. */
  predicate CoversSecond(r: Relationship) { r == Equivalent || r == MoreGeneral }

  /** `Combine` is conjunction, on whether the sets meet and on each inclusion. */
  lemma CombineIsConjunction(r1: Relationship, r2: Relationship)
    ensures Combine(r1, r2) != Disjoint <==> r1 != Disjoint && r2 != Disjoint
    ensures Combine(r1, r2) != Disjoint ==>
              (CoversSecond(Combine(r1, r2)) <==> CoversSecond(r1) && CoversSecond(r2))
    ensures Combine(Inverse(r1), Inverse(r2)) == Inverse(Combine(r1, r2))
  {}

  lemma {:induction false} PathRelationInverse(s1: seq<Segment>, s2: seq<Segment>)
    ensures PathRelation(s2, s1) == Inverse(PathRelation(s1, s2))
  {
    if s1 != [] && s2 != [] && !s1[0].multi && !s2[0].multi {
      PathRelationInverse(s1[1..], s2[1..]);
      CombineIsConjunction(CompareSegments(s1[0], s2[0]), PathRelation(s1[1..], s2[1..]));
    }
  }

  lemma {:induction false} UnequalLengths(s1: seq<Segment>, s2: seq<Segment>)
    requires |s1| != |s2|
    requires forall i :: 0 <= i < |s1| ==> !s1[i].multi
    requires forall i :: 0 <= i < |s2| ==> !s2[i].multi
    ensures PathRelation(s1, s2) == Disjoint
  {
    if s1 != [] && s2 != [] {
      UnequalLengths(s1[1..], s2[1..]);
      CombineIsConjunction(CompareSegments(s1[0], s2[0]), Disjoint);
    }
  }

  // ---------- exactness: witnesses and inclusions ----------

  /** A path a list of segments accepts. */
  function Sample(ss: seq<Segment>): (xs: seq<string>)
    ensures |xs| == |ss|
  {
    if ss == [] then [] else [ss[0].s] + Sample(ss[1..])
  }

  lemma {:induction false} SampleAccepted(ss: seq<Segment>)
    ensures PathAccepted(ss, Sample(ss))
  {
    if ss != [] {
      SampleAccepted(ss[1..]);
      assert Sample(ss)[1..] == Sample(ss[1..]);
    }
  }

  lemma {:induction false} CommonPath(s1: seq<Segment>, s2: seq<Segment>) returns (xs: seq<string>)
    requires PathRelation(s1, s2) != Disjoint
    ensures |xs| >= |s1| || |xs| >= |s2|
    ensures PathAccepted(s1, xs) && PathAccepted(s2, xs)
  {
    if s1 == [] {
      xs := [];
    } else if s1[0].multi {
      xs := Sample(s2);
      SampleAccepted(s2);
    } else if s2[0].multi {
      xs := Sample(s1);
      SampleAccepted(s1);
    } else {
      var t := CommonPath(s1[1..], s2[1..]);
      var x := if s1[0].identifier then s2[0].s else s1[0].s;
      xs := [x] + t;
      assert xs[1..] == t;
    }
  }

  /** When the first list does not cover the second, some path is accepted by the second only. */
  lemma {:induction false} OnlySecond(s1: seq<Segment>, s2: seq<Segment>) returns (xs: seq<string>)
    requires WellFormedSegments(s1) && WellFormedSegments(s2)
    requires PathRelation(s1, s2) != Disjoint && !CoversSecond(PathRelation(s1, s2))
    ensures |xs| > 0
    ensures !PathAccepted(s1, xs) && PathAccepted(s2, xs)
  {
    if s2[0].multi {
      xs := if !s1[0].identifier then [s1[0].s + "x"] else if |s1| == 1 then ["x", "x"] else ["x"];
    } else {
      CombineIsConjunction(CompareSegments(s1[0], s2[0]), PathRelation(s1[1..], s2[1..]));
      if CoversSecond(CompareSegments(s1[0], s2[0])) {
        var t := OnlySecond(s1[1..], s2[1..]);
        xs := [s2[0].s] + t;
        assert xs[1..] == t;
      } else {
        SampleAccepted(s2[1..]);
        xs := [s1[0].s + "x"] + Sample(s2[1..]);
        assert xs[1..] == Sample(s2[1..]);
      }
    }
  }

  lemma {:induction false} PathIncluded(s1: seq<Segment>, s2: seq<Segment>, xs: seq<string>)
    requires CoversSecond(PathRelation(s1, s2)) && PathAccepted(s2, xs)
    ensures PathAccepted(s1, xs)
  {
    if s1 != [] && !s1[0].multi {
      CombineIsConjunction(CompareSegments(s1[0], s2[0]), PathRelation(s1[1..], s2[1..]));
      PathIncluded(s1[1..], s2[1..], xs[1..]);
    }
  }

  lemma {:induction false} NoCommonPath(s1: seq<Segment>, s2: seq<Segment>, xs: seq<string>)
    requires PathRelation(s1, s2) == Disjoint
    ensures !(PathAccepted(s1, xs) && PathAccepted(s2, xs))
  {
    if s1 != [] && s2 != [] && xs != [] && CompareSegments(s1[0], s2[0]) != Disjoint {
      CombineIsConjunction(CompareSegments(s1[0], s2[0]), PathRelation(s1[1..], s2[1..]));
      NoCommonPath(s1[1..], s2[1..], xs[1..]);
    }
  }

  // ---------- exactness of the whole comparison ----------

  /** The comparison as a function of the two patterns. */
  function SyntacticRelation(p: Pattern, q: Pattern): Relationship {
    Combine(CompareVerbs(p.verb, q.verb), PathRelation(p.segments, q.segments))
  }

  lemma SyntacticInverse(p: Pattern, q: Pattern)
    ensures SyntacticRelation(q, p) == Inverse(SyntacticRelation(p, q))
  {
    PathRelationInverse(p.segments, q.segments);
    CombineIsConjunction(CompareVerbs(p.verb, q.verb), PathRelation(p.segments, q.segments));
  }

  lemma MeetIffNotDisjoint(p: Pattern, q: Pattern)
    requires WellFormed(p) && WellFormed(q)
    ensures Meet(p, q) <==> SyntacticRelation(p, q) != Disjoint
  {
    CombineIsConjunction(CompareVerbs(p.verb, q.verb), PathRelation(p.segments, q.segments));
    if SyntacticRelation(p, q) != Disjoint {
      var xs := CommonPath(p.segments, q.segments);
      var r: Request := RawRequest(if p.verb == "" then q.verb else p.verb, xs);
      assert Accepts(p, r) && Accepts(q, r);
    } else if Meet(p, q) {
      var r: Request :| Accepts(p, r) && Accepts(q, r);
      NoCommonPath(p.segments, q.segments, r.path);
      assert false;
    }
  }

  lemma IncludesIffCovers(p: Pattern, q: Pattern)
    requires WellFormed(p) && WellFormed(q) && SyntacticRelation(p, q) != Disjoint
    ensures Includes(p, q) <==> CoversSecond(SyntacticRelation(p, q))
  {
    var prel := PathRelation(p.segments, q.segments);
    CombineIsConjunction(CompareVerbs(p.verb, q.verb), prel);
    if CoversSecond(SyntacticRelation(p, q)) {
      forall r: Request | Accepts(q, r) ensures Accepts(p, r) {
        PathIncluded(p.segments, q.segments, r.path);
      }
    } else if CoversSecond(prel) {
      SampleAccepted(q.segments);
      var r: Request := RawRequest(p.verb + "x", Sample(q.segments));
      assert Accepts(q, r) && !Accepts(p, r);
    } else {
      var xs := OnlySecond(p.segments, q.segments);
      var r: Request := RawRequest(q.verb, xs);
      assert Accepts(q, r) && !Accepts(p, r);
    }
  }

  /** Every well-formed pattern accepts some request, so a set that includes another meets it. */
  lemma IncludedMeets(p: Pattern, q: Pattern)
    requires WellFormed(q) && Includes(p, q)
    ensures Meet(p, q)
  {
    SampleAccepted(q.segments);
    var r: Request := RawRequest(q.verb, Sample(q.segments));
    assert Accepts(q, r) && Accepts(p, r);
  }

  lemma MeetSymmetric(p: Pattern, q: Pattern)
    ensures Meet(p, q) == Meet(q, p)
  {}

  /** The main theorem: the syntactic comparison is the relationship of the request sets. */
  lemma ComparisonIsExact(p: Pattern, q: Pattern)
    requires WellFormed(p) && WellFormed(q)
    ensures SyntacticRelation(p, q) == Meaning(p, q)
  {
    MeetIffNotDisjoint(p, q);
    if SyntacticRelation(p, q) == Disjoint {
      MeetSymmetric(p, q);
      if Includes(p, q) { IncludedMeets(p, q); }
      if Includes(q, p) { IncludedMeets(q, p); }
    } else {
      SyntacticInverse(p, q);
      IncludesIffCovers(p, q);
      IncludesIffCovers(q, p);
    }
  }

  // ---------- the comparison as the code runs it ----------

  lemma CombineLaws(a: Relationship, b: Relationship, c: Relationship)
    ensures Combine(Combine(a, b), c) == Combine(a, Combine(b, c))
    ensures Combine(a, Equivalent) == a
  {}

  /** Looking at the last segment of both patterns is safe, or never happens. */
  predicate Comparable(p: Pattern, q: Pattern) {
    CompareVerbs(p.verb, q.verb) == Disjoint || (p.segments == [] <==> q.segments == [])
  }

  /** `comparePaths`: an accumulating pass over both lists in step. */
  method ComparePaths(p: Pattern, q: Pattern) returns (rel: Relationship)
    requires WellFormedSegments(p.segments) && WellFormedSegments(q.segments)
    requires p.segments == [] <==> q.segments == []
    ensures rel == PathRelation(p.segments, q.segments)
  {
    if |p.segments| != |q.segments|
       && !p.segments[|p.segments| - 1].multi && !q.segments[|q.segments| - 1].multi {
      UnequalLengths(p.segments, q.segments);
      return Disjoint;
    }
    var segs1, segs2 := p.segments, q.segments;
    rel := Equivalent;
    ghost var multi1 := p.segments != [] && p.segments[|p.segments| - 1].multi;
    ghost var multi2 := q.segments != [] && q.segments[|q.segments| - 1].multi;
    while |segs1| > 0 && |segs2| > 0
      invariant |segs1| <= |p.segments| && WellFormedSegments(segs1)
      invariant |segs2| <= |q.segments| && WellFormedSegments(segs2)
      invariant segs1 != [] ==> segs1[|segs1| - 1].multi == multi1
      invariant segs2 != [] ==> segs2[|segs2| - 1].multi == multi2
      invariant rel != Disjoint
      invariant PathRelation(p.segments, q.segments) ==
                if segs1 == [] && segs2 != [] && multi1 then Combine(rel, MoreGeneral)
                else if segs2 == [] && segs1 != [] && multi2 then Combine(rel, MoreSpecific)
                else Combine(rel, PathRelation(segs1, segs2))
    {
      var step := CompareSegments(segs1[0], segs2[0]);
      CombineLaws(rel, step, step);
      CombineLaws(rel, step, PathRelation(segs1[1..], segs2[1..]));
      rel := Combine(rel, step);
      if rel == Disjoint {
        return rel;
      }
      segs1, segs2 := segs1[1..], segs2[1..];
    }
    CombineLaws(rel, rel, rel);
    if |segs1| == 0 && |segs2| == 0 {
      return rel;
    }
    if |segs1| < |segs2| && p.segments[|p.segments| - 1].multi {
      return Combine(rel, MoreGeneral);
    }
    if |segs2| < |segs1| && q.segments[|q.segments| - 1].multi {
      return Combine(rel, MoreSpecific);
    }
    return Disjoint;
  }

  /** `comparePathsAndMethods` returns the relationship of the accepted request sets. The
      syntactic clause matters for patterns without segments, such as "/", only. */
  method ComparePathsAndVerbs(p: Pattern, q: Pattern) returns (rel: Relationship)
    requires WellFormedSegments(p.segments) && WellFormedSegments(q.segments)
    requires Comparable(p, q)
    ensures WellFormed(p) && WellFormed(q) ==> rel == Meaning(p, q)
    ensures rel == SyntacticRelation(p, q)
  {
    if WellFormed(p) && WellFormed(q) {
      ComparisonIsExact(p, q);
    }
    var vrel := CompareVerbs(p.verb, q.verb);
    if vrel == Disjoint {
      return Disjoint;
    }
    var prel := ComparePaths(p, q);
    return Combine(vrel, prel);
  }

  // ---------- precedence ----------

  /** Two patterns may stand in one configuration: comparing them does not fail, and they
      are disjoint or one is strictly more specific. */
  predicate Compatible(p: Pattern, q: Pattern) {
    Comparable(p, q) && SyntacticRelation(p, q) != Equivalent && SyntacticRelation(p, q) != Overlaps
  }

  /** In terms of requests: two patterns may stand together exactly when no request matches both,
      or when one of them, and not the other, matches everything the other does. */
  lemma CompatibleIffNested(p: Pattern, q: Pattern)
    requires WellFormed(p) && WellFormed(q)
    ensures Compatible(p, q) <==> !Meet(p, q) || Includes(p, q) != Includes(q, p)
  {
    ComparisonIsExact(p, q);
    if Includes(p, q) { IncludedMeets(p, q); }
    if Includes(q, p) { IncludedMeets(q, p); }
  }

  lemma CompatibleSymmetric(p: Pattern, q: Pattern)
    ensures Compatible(p, q) == Compatible(q, p)
  {
    SyntacticInverse(p, q);
  }

  /** A pattern below `b` and above `c` puts `b` above `c`. */
  lemma PrecedenceTransitive(a: Pattern, b: Pattern, c: Pattern)
    requires WellFormedSegments(a.segments) && WellFormedSegments(b.segments) && WellFormedSegments(c.segments)
    requires Comparable(a, b) && Comparable(a, c)
    requires SyntacticRelation(a, b) == MoreSpecific && SyntacticRelation(a, c) == MoreGeneral
    ensures SyntacticRelation(b, c) == MoreGeneral
  {
    if a.segments != [] {
      ComparisonIsExact(a, b);
      ComparisonIsExact(a, c);
      ComparisonIsExact(b, c);
      assert Includes(b, c);
      assert !Includes(c, b);
    }
  }
}
