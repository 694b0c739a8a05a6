/** Parsing configured route patterns: `newPattern`, the grammar it accepts, and how faithful
    the parsed pattern is to the configured text. */
module PatternParser {
  import opened Common
  import opened RoutePattern

  datatype ParseError =
    | EmptyPattern
    | InvalidMethod(verb: string)
    | MissingSlash
    | BadStart
    | BadEnd
    | MultiNotAtEnd
    | EmptyIdentifier
    | DuplicateName(name: string)

  predicate ValidVerb(v: string) {
    v == "GET" || v == "POST" || v == "PUT" || v == "DELETE" || v == "PATCH" || v == "OPTIONS"
  }

  const DOTS := "..."

  predicate EndsInDots(s: string) {
    |s| >= 3 && s[|s| - 3..] == DOTS
  }

  // ---------- the parser as functions ----------

  /** One piece of a path; `last` says that nothing follows it. */
  function ParseSegment(seg: string, last: bool): Result<Segment, ParseError> {
    var i := IndexOf(seg, '{');
    if i == |seg| then Ok(Segment(seg, false, false))
    else if i != 0 then Err(BadStart)
    else if seg[|seg| - 1] != '}' then Err(BadEnd)
    else
      var body := seg[1..|seg| - 1];
      var multi := EndsInDots(body);
      var name := if multi then body[..|body| - 3] else body;
      if multi && !last then Err(MultiNotAtEnd)
      else if name == "" then Err(EmptyIdentifier)
      else Ok(Segment(name, true, multi))
  }

  /** The loop of `newPattern`: drop one character, take the piece up to the next '/'. */
  function ParsePath(path: string, seen: set<string>): Result<seq<Segment>, ParseError> {
    if |path| <= 1 then Ok([])
    else
      var rest := path[1..];
      var i := IndexOf(rest, '/');
      match ParseSegment(rest[..i], i == |rest|)
      case Err(e) => Err(e)
      case Ok(s) =>
        if s.identifier && s.s in seen then Err(DuplicateName(s.s))
        else Prepend([s], ParsePath(rest[i..], Remember(s, seen)))
  }

  function Remember(s: Segment, seen: set<string>): set<string> {
    if s.identifier then seen + {s.s} else seen
  }

  function Prepend(ss: seq<Segment>, r: Result<seq<Segment>, ParseError>): Result<seq<Segment>, ParseError> {
    match r
    case Err(e) => Err(e)
    case Ok(ts) => Ok(ss + ts)
  }

  lemma PrependTwice(ss: seq<Segment>, s: Segment, r: Result<seq<Segment>, ParseError>)
    ensures Prepend(ss + [s], r) == Prepend(ss, Prepend([s], r))
  {
    assert r.Ok? ==> ss + [s] + r.value == ss + ([s] + r.value);
  }

  lemma PrependNothing(r: Result<seq<Segment>, ParseError>)
    ensures Prepend([], r) == r
  {
    assert r.Ok? ==> [] + r.value == r.value;
  }

  /** The verb and the path of a configured text, cut at the first space. */
  function VerbOf(text: string): string {
    if ' ' in text then text[..IndexOf(text, ' ')] else ""
  }

  function PathOf(text: string): string {
    if ' ' in text then text[IndexOf(text, ' ') + 1..] else text
  }

  // ---------- the grammar of patterns ----------

  function SegmentText(s: Segment): string {
    if s.identifier then "{" + s.s + (if s.multi then DOTS else "") + "}" else s.s
  }

  function PathText(ss: seq<Segment>, trailing: bool): string {
    if ss == [] then (if trailing then "/" else "")
    else "/" + SegmentText(ss[0]) + PathText(ss[1..], trailing)
  }

  function PatternText(p: Pattern, trailing: bool): string {
    (if p.verb == "" then "" else p.verb + " ") + PathText(p.segments, trailing)
  }

  predicate GoodSegment(s: Segment, last: bool) {
    && '/' !in s.s
    && (s.multi ==> s.identifier && last)
    && (s.identifier ==> s.s != "")
    && (s.identifier && !s.multi ==> !EndsInDots(s.s))
    && (!s.identifier ==> '{' !in s.s && (last ==> s.s != ""))
  }

  predicate GoodSegments(ss: seq<Segment>, trailing: bool) {
    && (forall i :: 0 <= i < |ss| ==> GoodSegment(ss[i], i == |ss| - 1 && !trailing))
    && (forall i, j :: 0 <= i < j < |ss| && ss[i].identifier && ss[j].identifier ==> ss[i].s != ss[j].s)
  }

  /** The patterns the grammar describes, with the flag for one optional trailing slash. */
  predicate GoodPattern(p: Pattern, trailing: bool) {
    && p.text == PatternText(p, trailing)
    && (p.segments != [] || trailing)
    && GoodSegments(p.segments, trailing)
    && if p.verb == "" then ' ' !in p.text else ValidVerb(p.verb)
  }

  ghost predicate Unseen(ss: seq<Segment>, seen: set<string>) {
    forall i :: 0 <= i < |ss| && ss[i].identifier ==> ss[i].s !in seen
  }

  // ---------- soundness ----------

  lemma SegmentSound(seg: string, last: bool)
    requires '/' !in seg && (last ==> seg != "")
    requires ParseSegment(seg, last).Ok?
    ensures var s := ParseSegment(seg, last).value; GoodSegment(s, last) && SegmentText(s) == seg
  {
    var s := ParseSegment(seg, last).value;
    if s.identifier {
      var body := seg[1..|seg| - 1];
      assert seg == "{" + body + "}";
      assert s.multi ==> body == s.s + DOTS;
      assert forall k :: 0 <= k < |s.s| ==> s.s[k] == seg[k + 1];
    }
  }

  lemma {:induction false} PathSound(path: string, seen: set<string>) returns (trailing: bool)
    requires path != "" ==> path[0] == '/'
    requires ParsePath(path, seen).Ok?
    ensures var ss := ParsePath(path, seen).value;
            GoodSegments(ss, trailing) && Unseen(ss, seen) && PathText(ss, trailing) == path
  {
    if |path| <= 1 {
      trailing := path != "";
      assert path == if trailing then "/" else "";
    } else {
      var rest := path[1..];
      var t, after := rest[..IndexOf(rest, '/')], rest[IndexOf(rest, '/')..];
      assert rest == t + after;
      SegmentSound(t, after == "");
      var s := ParseSegment(t, after == "").value;
      trailing := PathSound(after, Remember(s, seen));
      var tail := ParsePath(after, Remember(s, seen)).value;
      assert after == "" <==> tail == [] && !trailing;
      GoodCons(s, tail, trailing, seen);
      TextCons(s, tail, trailing);
    }
  }

  lemma TextCons(s: Segment, tail: seq<Segment>, trailing: bool)
    ensures PathText([s] + tail, trailing) == "/" + (SegmentText(s) + PathText(tail, trailing))
  {
    assert ([s] + tail)[1..] == tail;
  }

  lemma GoodCons(s: Segment, tail: seq<Segment>, trailing: bool, seen: set<string>)
    ensures GoodSegments([s] + tail, trailing) && Unseen([s] + tail, seen) <==>
            && GoodSegment(s, tail == [] && !trailing) && (s.identifier ==> s.s !in seen)
            && GoodSegments(tail, trailing) && Unseen(tail, Remember(s, seen))
  {
    var ss := [s] + tail;
    assert forall i :: 0 <= i < |tail| ==> ss[i + 1] == tail[i];
    assert forall i :: 1 <= i < |ss| ==> ss[i] == tail[i - 1];
    if GoodSegments(ss, trailing) && Unseen(ss, seen) {
      assert GoodSegment(ss[0], tail == [] && !trailing);
      forall i | 0 <= i < |tail|
        ensures GoodSegment(tail[i], i == |tail| - 1 && !trailing)
        ensures tail[i].identifier ==> tail[i].s !in Remember(s, seen)
      {
        assert GoodSegment(ss[i + 1], i == |tail| - 1 && !trailing);
      }
    }
  }

  // ---------- completeness ----------

  lemma SegmentComplete(s: Segment, last: bool)
    requires GoodSegment(s, last)
    ensures ParseSegment(SegmentText(s), last) == Ok(s)
    ensures '/' !in SegmentText(s)
  {
    var seg := SegmentText(s);
    if s.identifier {
      var body := if s.multi then s.s + DOTS else s.s;
      assert seg == "{" + body + "}";
      assert seg[1..|seg| - 1] == body;
      assert s.multi ==> body[|body| - 3..] == DOTS && body[..|body| - 3] == s.s;
    }
  }

  /** One round of the loop on a path whose first piece has the text `t`. */
  lemma ParsePiece(t: string, after: string, s: Segment, seen: set<string>)
    requires '/' !in t && (after == "" || after[0] == '/') && t + after != ""
    requires ParseSegment(t, after == "") == Ok(s) && !(s.identifier && s.s in seen)
    ensures ParsePath("/" + t + after, seen) == Prepend([s], ParsePath(after, Remember(s, seen)))
  {
    var rest := t + after;
    assert ("/" + t + after)[1..] == rest;
    IndexOfAppend(t, after, '/');
    assert rest[..|t|] == t && rest[|t|..] == after;
  }

  lemma {:induction false} PathComplete(ss: seq<Segment>, trailing: bool, seen: set<string>)
    requires GoodSegments(ss, trailing) && Unseen(ss, seen)
    ensures ParsePath(PathText(ss, trailing), seen) == Ok(ss)
  {
    if ss != [] {
      var s, tail := ss[0], ss[1..];
      assert ss == [s] + tail;
      GoodCons(s, tail, trailing, seen);
      SegmentComplete(s, tail == [] && !trailing);
      PathComplete(tail, trailing, Remember(s, seen));
      ParsePiece(SegmentText(s), PathText(tail, trailing), s, seen);
    }
  }

  lemma CutAtSpace(p: Pattern, trailing: bool)
    requires GoodPattern(p, trailing)
    ensures VerbOf(p.text) == p.verb && PathOf(p.text) == PathText(p.segments, trailing)
  {
    if p.verb != "" {
      IndexOfAppend(p.verb, " " + PathText(p.segments, trailing), ' ');
      assert p.text == p.verb + (" " + PathText(p.segments, trailing));
      assert p.text[|p.verb|] == ' ';
    }
  }

  /** What the grammar describes can be used by the comparison and the matching. */
  lemma GoodIsWellFormed(ss: seq<Segment>, trailing: bool)
    requires GoodSegments(ss, trailing)
    ensures WellFormedSegments(ss)
  {
    forall i | 0 <= i < |ss| && ss[i].multi ensures ss[i].identifier && i == |ss| - 1 {
      assert GoodSegment(ss[i], i == |ss| - 1 && !trailing);
    }
  }

  // ---------- newPattern ----------

  /** The parse result as a function of the text. */
  function Parse(text: string): Result<Pattern, ParseError> {
    if text == "" then Err(EmptyPattern)
    else if ' ' in text && !ValidVerb(VerbOf(text)) then Err(InvalidMethod(VerbOf(text)))
    else if '/' !in PathOf(text) then Err(MissingSlash)
    else
      match ParsePath(PathOf(text), {})
      case Err(e) => Err(e)
      case Ok(ss) => Ok(Pattern(text, VerbOf(text), ss))
  }

  /** A parsed pattern is one the grammar describes, provided its path starts with '/'. */
  lemma ParseSound(text: string) returns (trailing: bool)
    requires Parse(text).Ok? && PathOf(text)[0] == '/'
    ensures GoodPattern(Parse(text).value, trailing)
  {
    var p := Parse(text).value;
    trailing := PathSound(PathOf(text), {});
    TextOfParts(text);
  }

  lemma TextOfParts(text: string)
    ensures text == (if ' ' in text then VerbOf(text) + " " + PathOf(text) else PathOf(text))
    ensures ' ' !in VerbOf(text)
  {
    if ' ' in text {
      var k :| 0 <= k < |text| && text[k] == ' ';
      assert IndexOf(text, ' ') <= k;
    }
  }

  /** Every pattern of the grammar is parsed, and parsed to itself. */
  lemma ParseComplete(p: Pattern, trailing: bool)
    requires GoodPattern(p, trailing)
    ensures Parse(p.text) == Ok(p)
  {
    CutAtSpace(p, trailing);
    PathComplete(p.segments, trailing, {});
    assert PathText(p.segments, trailing)[0] == '/';
    if p.verb != "" {
      assert p.text[|p.verb|] == ' ';
    }
  }

  ghost predicate Faithful(p: Pattern) {
    exists trailing :: GoodPattern(p, trailing)
  }

  /** The loop claims that the path starts with '/', but the code only tests that it contains
      one. A parsed pattern is faithful to its text exactly when the claim holds. */
  lemma FaithfulIffLeadingSlash(text: string)
    requires Parse(text).Ok?
    ensures Faithful(Parse(text).value) <==> PathOf(text)[0] == '/'
  {
    var p := Parse(text).value;
    if PathOf(text)[0] == '/' {
      var trailing := ParseSound(text);
    } else if Faithful(p) {
      var trailing :| GoodPattern(p, trailing);
      CutAtSpace(p, trailing);
    }
  }

  /** The first character of the path has no influence on the segments. */
  lemma FirstCharacterIgnored(path: string, seen: set<string>)
    requires path != ""
    ensures ParsePath(path, seen) == ParsePath("/" + path[1..], seen)
  {
    assert ("/" + path[1..])[1..] == path[1..];
  }

  /** Without a leading slash a character is lost: "ab/" is read as "/b/". */
  lemma FirstCharacterLost()
    ensures ParsePath("ab/", {}) == Ok([Segment("b", false, false)])
  {
    var ss := [Segment("b", false, false)];
    assert PathText(ss[1..], true) == "/";
    assert PathText(ss, true) == "/" + "ab/"[1..];
    PathComplete(ss, true, {});
    FirstCharacterIgnored("ab/", {});
  }

  /** Multi segments end a parsed path, whatever its first character is. */
  lemma ParsedIsWellFormed(path: string, seen: set<string>)
    requires ParsePath(path, seen).Ok?
    ensures WellFormedSegments(ParsePath(path, seen).value)
  {
    if |path| > 1 {
      FirstCharacterIgnored(path, seen);
      var trailing := PathSound("/" + path[1..], seen);
      GoodIsWellFormed(ParsePath(path, seen).value, trailing);
    }
  }

  /** Among the texts whose path starts with '/', the parser accepts exactly the grammar, and
      returns the pattern that prints as the text, up to one trailing slash. */
  lemma ParseMeaning(text: string)
    ensures forall p, trailing :: GoodPattern(p, trailing) && p.text == text ==> Parse(text) == Ok(p)
    ensures Parse(text).Ok? ==> (Faithful(Parse(text).value) <==> PathOf(text)[0] == '/')
    ensures Parse(text).Ok? ==> WellFormedSegments(Parse(text).value.segments)
    ensures Parse(text).Ok? ==> (Parse(text).value.segments == [] <==> PathOf(text) == "/")
  {
    forall p, trailing | GoodPattern(p, trailing) && p.text == text ensures Parse(text) == Ok(p) {
      ParseComplete(p, trailing);
    }
    if Parse(text).Ok? {
      FaithfulIffLeadingSlash(text);
      ParsedIsWellFormed(PathOf(text), {});
    }
  }

  /** `newPattern`. */
  method NewPattern(text: string) returns (r: Result<Pattern, ParseError>)
    ensures r == Parse(text)
  {
    if |text| == 0 {
      return Err(EmptyPattern);
    }
    var verb, path := "", text;
    if ' ' in text {
      var cut := IndexOf(text, ' ');
      verb, path := text[..cut], text[cut + 1..];
      if !ValidVerb(verb) {
        return Err(InvalidMethod(verb));
      }
    }
    if IndexOf(path, '/') == |path| {
      return Err(MissingSlash);
    }
    var segments: seq<Segment> := [];
    var seenNames: set<string> := {};
    PrependNothing(ParsePath(path, {}));
    while |path| > 0
      invariant ParsePath(PathOf(text), {}) == Prepend(segments, ParsePath(path, seenNames))
      decreases |path|
    {
      path := path[1..];
      if |path| == 0 {
        break;
      }
      var i := IndexOf(path, '/');
      var seg, rest := path[..i], path[i..];
      path := rest;
      match ParseSegment(seg, |path| == 0) {
        case Err(e) =>
          return Err(e);
        case Ok(segment) =>
          if segment.identifier {
            if segment.s in seenNames {
              return Err(DuplicateName(segment.s));
            }
            seenNames := seenNames + {segment.s};
          }
          PrependTwice(segments, segment, ParsePath(path, seenNames));
          segments := segments + [segment];
      }
    }
    assert segments + [] == segments;
    return Ok(Pattern(text, verb, segments));
  }
}
