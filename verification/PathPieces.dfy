/** Configured and requested paths as texts: which piece of a configured path makes the parser
    fail, and which requested paths a configured text covers. */
module PathPieces {
  import opened Common
  import opened PatternParser
  import opened RoutePattern

  // ---------- the pieces of a configured path ----------

  /** The pieces of a configured path: the first character is not looked at, and one slash at the
      end is dropped. */
  function Pieces(path: string): seq<string> {
    if path == "" then []
    else
      var us := Split(path[1..], '/');
      if us[|us| - 1] == "" then us[..|us| - 1] else us
  }

  predicate HasTrailingSlash(path: string) {
    path != "" && var us := Split(path[1..], '/'); us[|us| - 1] == ""
  }

  /** A piece that stands for any one piece. */
  predicate IsName(u: string) {
    u != "" && u[0] == '{'
  }

  /** A piece that stands for any pieces up to the end. */
  predicate IsRest(u: string) {
    |u| >= 2 && u[0] == '{' && EndsInDots(u[1..|u| - 1])
  }

  function NameOf(u: string): string {
    if |u| < 2 then ""
    else if IsRest(u) then u[1..|u| - 4]
    else u[1..|u| - 1]
  }

  // ---------- faults ----------

  /** Some piece before piece `k` has the same name. */
  predicate IsRepeated(us: seq<string>, k: nat)
    requires k < |us|
  {
    exists j :: 0 <= j < k && IsName(us[j]) && NameOf(us[j]) == NameOf(us[k])
  }

  /** What is wrong with piece `k`, read as text among the pieces before it. */
  function Fault(us: seq<string>, k: nat, trailing: bool): Option<ParseError>
    requires k < |us|
  {
    var u := us[k];
    if '{' !in u then None
    else if u[0] != '{' then Some(BadStart)
    else if u[|u| - 1] != '}' then Some(BadEnd)
    else if IsRest(u) && (trailing || k < |us| - 1) then Some(MultiNotAtEnd)
    else if NameOf(u) == "" then Some(EmptyIdentifier)
    else if IsRepeated(us, k) then Some(DuplicateName(NameOf(u)))
    else None
  }

  /** The fault of the first faulty piece from `k` on. */
  function FirstFault(us: seq<string>, k: nat, trailing: bool): Option<ParseError>
    requires k <= |us|
    decreases |us| - k
  {
    if k == |us| then None
    else if Fault(us, k, trailing).Some? then Fault(us, k, trailing)
    else FirstFault(us, k + 1, trailing)
  }

  function SegmentOf(u: string): Segment {
    if IsName(u) then Segment(NameOf(u), true, IsRest(u)) else Segment(u, false, false)
  }

  function SegmentsFrom(us: seq<string>, k: nat): seq<Segment>
    requires k <= |us|
  {
    seq(|us| - k, j requires 0 <= j < |us| - k => SegmentOf(us[k + j]))
  }

  function NamesBefore(us: seq<string>, k: nat): set<string>
    requires k <= |us|
  {
    set j | 0 <= j < k && IsName(us[j]) :: NameOf(us[j])
  }

  lemma ParsesPiece(us: seq<string>, k: nat, trailing: bool)
    requires k < |us| && (k == |us| - 1 && !trailing ==> us[k] != "")
    ensures var r := ParseSegment(us[k], k == |us| - 1 && !trailing);
            match Fault(us, k, trailing)
            case None => r == Ok(SegmentOf(us[k])) && !(IsName(us[k]) && IsRepeated(us, k))
            case Some(DuplicateName(n)) => r == Ok(SegmentOf(us[k])) && IsName(us[k]) && IsRepeated(us, k) && n == NameOf(us[k])
            case Some(e) => r == Err(e)
  {
    var u := us[k];
    if '{' in u {
      var i :| 0 <= i < |u| && u[i] == '{';
      assert IndexOf(u, '{') <= i;
      if u[0] == '{' && u[|u| - 1] == '}' {
        var body := u[1..|u| - 1];
        assert EndsInDots(body) ==> body[..|body| - 3] == u[1..|u| - 4];
      }
    }
  }

  lemma RepeatedIffSeen(us: seq<string>, k: nat)
    requires k < |us|
    ensures IsRepeated(us, k) <==> NameOf(us[k]) in NamesBefore(us, k)
    ensures NamesBefore(us, k + 1) == Remember(SegmentOf(us[k]), NamesBefore(us, k))
  {}

  /** The path behind piece `k` holds the other pieces. */
  lemma NextPiece(path: string, us: seq<string>, k: nat, trailing: bool)
    requires k < |us| && |path| > 0 && Pieces(path) == us[k..] && HasTrailingSlash(path) == trailing
    ensures var rest := path[1..];
            var i := IndexOf(rest, '/');
            && |path| > 1 && rest[..i] == us[k]
            && (i == |rest| <==> k == |us| - 1 && !trailing)
            && Pieces(rest[i..]) == us[k + 1..] && (rest[i..] != "" ==> HasTrailingSlash(rest[i..]) == trailing)
            && (rest[i..] == "" ==> !trailing)
  {
    var rest := path[1..];
    var i := IndexOf(rest, '/');
    var all := Split(rest, '/');
    assert Pieces(path)[0] == us[k];
    if i == |rest| {
      assert all == [rest];
    } else {
      var tail := Split(rest[i + 1..], '/');
      assert all == [rest[..i]] + tail;
      assert rest[i..][1..] == rest[i + 1..];
      assert us[k..][1..] == us[k + 1..];
      assert all[1..] == tail && all[..|all| - 1] == [rest[..i]] + tail[..|tail| - 1];
    }
  }

  /** One round of the loop on piece `k`. */
  lemma ParsesOne(path: string, us: seq<string>, k: nat, trailing: bool) returns (rest: string)
    requires k < |us| && Pieces(path) == us[k..] && path != "" && HasTrailingSlash(path) == trailing
    ensures Pieces(rest) == us[k + 1..]
    ensures if rest == "" then k == |us| - 1 else HasTrailingSlash(rest) == trailing
    ensures ParsePath(path, NamesBefore(us, k)) ==
            match Fault(us, k, trailing)
            case Some(e) => Err(e)
            case None => Prepend([SegmentOf(us[k])], ParsePath(rest, NamesBefore(us, k + 1)))
  {
    NextPiece(path, us, k, trailing);
    ParsesPiece(us, k, trailing);
    RepeatedIffSeen(us, k);
    rest := path[1..][IndexOf(path[1..], '/')..];
    assert rest == "" ==> us[k + 1..] == [];
  }

  /** The parser fails with the fault of the first faulty piece; without one it returns what the
      pieces say. */
  lemma {:induction false} ParsesPieces(path: string, us: seq<string>, k: nat, trailing: bool)
    requires k <= |us| && Pieces(path) == us[k..]
    requires if path == "" then k == |us| else HasTrailingSlash(path) == trailing
    ensures ParsePath(path, NamesBefore(us, k)) ==
            match FirstFault(us, k, trailing)
            case None => Ok(SegmentsFrom(us, k))
            case Some(e) => Err(e)
    decreases |us| - k
  {
    if k == |us| {
      assert us[k..] == [];
      NoPieces(path);
      assert SegmentsFrom(us, k) == [];
    } else {
      var rest := ParsesOne(path, us, k, trailing);
      ParsesPieces(rest, us, k + 1, trailing);
      assert SegmentsFrom(us, k) == [SegmentOf(us[k])] + SegmentsFrom(us, k + 1);
    }
  }

  lemma NoPieces(path: string)
    requires Pieces(path) == []
    ensures |path| <= 1
  {
    if path != "" {
      JoinSplit(path[1..], '/');
    }
  }

  /** Exactly when a text is refused, and why: its pieces are looked at in order. */
  lemma ParseByPieces(text: string)
    ensures Parse(text) ==
            if text == "" then Err(EmptyPattern)
            else if ' ' in text && !ValidVerb(VerbOf(text)) then Err(InvalidMethod(VerbOf(text)))
            else if '/' !in PathOf(text) then Err(MissingSlash)
            else
              match FirstFault(Pieces(PathOf(text)), 0, HasTrailingSlash(PathOf(text)))
              case Some(e) => Err(e)
              case None => Ok(Pattern(text, VerbOf(text), SegmentsFrom(Pieces(PathOf(text)), 0)))
  {
    var path := PathOf(text);
    assert NamesBefore(Pieces(path), 0) == {};
    assert Pieces(path)[0..] == Pieces(path);
    ParsesPieces(path, Pieces(path), 0, HasTrailingSlash(path));
  }

  // ---------- which requests a configured text covers ----------

  /** The pieces of a configured path cover those of a requested path: a name stands for any piece,
      a rest for any pieces, and everything else for itself. */
  predicate Covers(us: seq<string>, xs: seq<string>) {
    if us == [] then xs == []
    else if IsRest(us[0]) then xs != []
    else xs != [] && (IsName(us[0]) || us[0] == xs[0]) && Covers(us[1..], xs[1..])
  }

  /** The configured text covers a request with the given verb and path. */
  predicate TextCovers(text: string, verb: string, path: string)
    requires path != ""
  {
    VerbAccepted(VerbOf(text), verb) && Covers(Pieces(PathOf(text)), Split(path[1..], '/'))
  }

  lemma {:induction false} CoversIffAccepted(us: seq<string>, xs: seq<string>)
    ensures PathAccepted(SegmentsFrom(us, 0), xs) <==> Covers(us, xs)
  {
    var ss := SegmentsFrom(us, 0);
    assert |ss| == |us| && (us != [] ==> ss[0] == SegmentOf(us[0]));
    if us != [] && xs != [] && !IsRest(us[0]) {
      assert SegmentsFrom(us, 0)[1..] == SegmentsFrom(us[1..], 0);
      CoversIffAccepted(us[1..], xs[1..]);
    }
  }

  /** A parsed pattern accepts exactly the requests that its text covers. */
  lemma AcceptsIffCovers(text: string, verb: string, path: string)
    requires Parse(text).Ok? && path != ""
    ensures Accepts(Parse(text).value, RawRequest(verb, Split(path[1..], '/'))) <==> TextCovers(text, verb, path)
  {
    ParseByPieces(text);
    CoversIffAccepted(Pieces(PathOf(text)), Split(path[1..], '/'));
  }

  lemma {:induction false} LiteralsCoverThemselves(us: seq<string>, xs: seq<string>)
    requires forall k :: 0 <= k < |us| ==> !IsName(us[k])
    ensures Covers(us, xs) <==> us == xs
  {
    if us != [] && xs != [] {
      assert !IsName(us[0]);
      LiteralsCoverThemselves(us[1..], xs[1..]);
      assert us == [us[0]] + us[1..] && xs == [xs[0]] + xs[1..];
    }
  }

  lemma NoNamesWithoutBraces(path: string)
    requires path != "" && '{' !in path
    ensures forall k :: 0 <= k < |Split(path[1..], '/')| ==> !IsName(Split(path[1..], '/')[k])
  {
    var us := Split(path[1..], '/');
    forall k | 0 <= k < |us| ensures !IsName(us[k]) {
      if us[k] != "" {
        PieceChars(path[1..], '/', k, 0);
      }
    }
  }

  lemma {:induction false} NoEmptyLast(us: seq<string>)
    requires us != [] && Join(us, '/') != "" && Join(us, '/')[|Join(us, '/')| - 1] != '/'
    ensures us[|us| - 1] != ""
  {
    if |us| > 1 {
      assert Join(us, '/') == us[0] + ['/'] + Join(us[1..], '/');
      NoEmptyLast(us[1..]);
    }
  }

  lemma SlashAtEnd(u: string, x: string)
    requires Split(u, '/')[|Split(u, '/')| - 1] == ""
    ensures Split(u, '/') == Split(x, '/') + [""] <==> u == x + "/"
  {
    var xs := Split(x, '/');
    JoinSplit(u, '/');
    JoinSplit(x, '/');
    JoinLast(xs, "", '/');
    assert x + "/" + "" == x + "/";
    if u == x + "/" {
      SplitJoin(xs + [""], '/');
    }
  }

  /** Without names a configured path covers, for its verb, exactly the requested path that is
      the same text behind the first character; with a slash at its end, the path without it. */
  lemma LiteralCovers(text: string, verb: string, path: string)
    requires PathOf(text) != "" && path != "" && '{' !in PathOf(text)
    ensures TextCovers(text, verb, path) <==>
              VerbAccepted(VerbOf(text), verb) &&
              PathOf(text)[1..] != "" &&
              PathOf(text)[1..] == path[1..] + (if HasTrailingSlash(PathOf(text)) then "/" else "")
  {
    var u, x := PathOf(text)[1..], path[1..];
    var us, xs := Split(u, '/'), Split(x, '/');
    NoNamesWithoutBraces(PathOf(text));
    LiteralsCoverThemselves(Pieces(PathOf(text)), xs);
    hide Split, Covers, IsName;
    if HasTrailingSlash(PathOf(text)) {
      assert us == us[..|us| - 1] + [""];
      SlashAtEnd(u, x);
      assert us == xs + [""] <==> us[..|us| - 1] == xs;
      assert u == "" ==> u != x + "/";
    } else {
      JoinSplit(u, '/');
      JoinSplit(x, '/');
      assert x + "" == x;
      assert u == "" ==> us == [""] by { EmptySplit(); }
    }
  }

  lemma EmptySplit()
    ensures Split("", '/') == [""]
  {}

  /** The same law for texts given by their pieces: each name may stand for any piece. */
  lemma JoinedCovers(text: string, us: seq<string>, verb: string, path: string, xs: seq<string>)
    requires us != [] && us[|us| - 1] != "" && forall k :: 0 <= k < |us| ==> '/' !in us[k]
    requires xs != [] && forall k :: 0 <= k < |xs| ==> '/' !in xs[k]
    requires PathOf(text) == "/" + Join(us, '/') && path == "/" + Join(xs, '/')
    ensures TextCovers(text, verb, path) <==> VerbAccepted(VerbOf(text), verb) && Covers(us, xs)
  {
    SplitJoin(us, '/');
    SplitJoin(xs, '/');
    assert PathOf(text)[1..] == Join(us, '/') && path[1..] == Join(xs, '/');
  }
}
