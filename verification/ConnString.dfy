/** The option parser for key/value connection strings (section 34.1.1.1 of the PostgreSQL 14
    documentation). */
module ConnString {
  import opened Common

  datatype ParseError = MissingEquals(key: string) | DanglingBackslash | Unterminated

  /** The characters that unicode.IsSpace accepts. */
  predicate IsSpace(c: char) {
    var n := c as int;
    || 9 <= n <= 13 || n == 0x20 || n == 0x85 || n == 0xA0 || n == 0x1680
    || 0x2000 <= n <= 0x200A || n == 0x2028 || n == 0x2029 || n == 0x202F || n == 0x205F || n == 0x3000
  }

  /** The characters with the Unicode property White_Space. */
  const SPACES: set<int> := {0x09, 0x0A, 0x0B, 0x0C, 0x0D, 0x20, 0x85, 0xA0, 0x1680, 0x2000, 0x2001, 0x2002, 0x2003,
                             0x2004, 0x2005, 0x2006, 0x2007, 0x2008, 0x2009, 0x200A, 0x2028, 0x2029, 0x202F, 0x205F, 0x3000}

  lemma SpacesAreWhiteSpace(c: char)
    ensures IsSpace(c) <==> c as int in SPACES
  {}

  // ---------- the parser as functions on the rest of the text ----------

  function SkipSpaces(t: string): (rest: string)
    ensures |rest| <= |t| && (rest != "" ==> !IsSpace(rest[0]))
  {
    if t != "" && IsSpace(t[0]) then SkipSpaces(t[1..]) else t
  }

  function ScanKey(t: string): (r: (string, string))
    ensures |r.1| <= |t|
  {
    if t == "" || IsSpace(t[0]) || t[0] == '=' then ("", t)
    else ([t[0]] + ScanKey(t[1..]).0, ScanKey(t[1..]).1)
  }

  /** A quoted value, from behind its opening quote: the value and the text behind it. */
  function ScanQuoted(t: string): (r: Option<(string, string)>)
    ensures r.Some? ==> |r.value.1| < |t|
  {
    if t == "" then None
    else if t[0] == '\'' then Some(("", t[1..]))
    else if t[0] == '\\' then
      if |t| == 1 then None else Ahead(t[1], ScanQuoted(t[2..]))
    else Ahead(t[0], ScanQuoted(t[1..]))
  }

  function Ahead(c: char, r: Option<(string, string)>): Option<(string, string)> {
    match r
    case None => None
    case Some((value, rest)) => Some(([c] + value, rest))
  }

  /** An unquoted value ends behind a space or a semicolon; `None` for a final backslash. */
  function ScanBare(t: string): (r: Option<(string, string)>)
    ensures r.Some? ==> |r.value.1| <= |t| && (t != "" ==> |r.value.1| < |t|)
  {
    if t == "" then Some(("", ""))
    else if IsSpace(t[0]) || t[0] == ';' then Some(("", t[1..]))
    else if t[0] == '\\' then
      if |t| == 1 then None else Ahead(t[1], ScanBare(t[2..]))
    else Ahead(t[0], ScanBare(t[1..]))
  }

  type Pair = (string, string)

  /** The assignments made, in order, and the error that ended the parse, if any. */
  datatype Parsed = Parsed(pairs: seq<Pair>, error: Option<ParseError>)

  function Assigning(p: Pair, rest: Parsed): Parsed {
    Parsed([p] + rest.pairs, rest.error)
  }

  function ParsePairs(text: string): Parsed
    decreases |text|
  {
    var t := SkipSpaces(text);
    if t == "" then Parsed([], None)
    else
      var (key, afterKey) := ScanKey(t);
      var equals := SkipSpaces(afterKey);
      if equals == "" || equals[0] != '=' then Parsed([], Some(MissingEquals(key)))
      else ParseValue(key, SkipSpaces(equals[1..]))
  }

  /** The value that starts `t`, quoted or not, and the text behind it. */
  function ScanValue(t: string): (r: Result<(string, string), ParseError>)
    requires t != ""
    ensures r.Ok? ==> |r.value.1| < |t|
  {
    if t[0] != '\'' then
      match ScanBare(t)
      case None => Err(DanglingBackslash)
      case Some(scanned) => Ok(scanned)
    else
      match ScanQuoted(t[1..])
      case None => Err(Unterminated)
      case Some(scanned) => Ok(scanned)
  }

  function ParseValue(key: string, t: string): Parsed
    decreases |t|
  {
    if t == "" then Parsed([(key, "")], None)
    else
      match ScanValue(t)
      case Err(e) => Parsed([], Some(e))
      case Ok((value, rest)) => Assigning((key, value), ParsePairs(rest))
  }

  type Values = map<string, string>

  /** Later assignments to a key win. */
  function Store(values: Values, pairs: seq<Pair>): Values
    decreases |pairs|
  {
    if pairs == [] then values else Store(values[pairs[0].0 := pairs[0].1], pairs[1..])
  }

  // ---------- the parser as the code runs it ----------

  class Scanner {
    const s: string
    var i: nat

    constructor (text: string)
      ensures Valid() && Rest() == text
    {
      s, i := text, 0;
    }

    ghost predicate Valid()
      reads this
    {
      i <= |s|
    }

    function Rest(): string
      requires i <= |s|
      reads this
    {
      s[i..]
    }

    /** `Next`: the next character, or '\0' and false at the end. */
    method Next() returns (r: char, ok: bool)
      requires Valid()
      modifies this
      ensures Valid() && ok == (old(Rest()) != "")
      ensures if ok then [r] + Rest() == old(Rest()) else r == '\0' && Rest() == ""
    {
      if i >= |s| {
        return '\0', false;
      }
      r := s[i];
      i := i + 1;
      return r, true;
    }

    /** `SkipSpaces`: the next character that is not a space. */
    method SkipToNonSpace() returns (r: char, ok: bool)
      requires Valid()
      modifies this
      ensures Valid() && ok == (SkipSpaces(old(Rest())) != "")
      ensures if ok then [r] + Rest() == SkipSpaces(old(Rest())) else r == '\0' && Rest() == ""
    {
      ghost var goal := SkipSpaces(Rest());
      r, ok := Next();
      while IsSpace(r) && ok
        invariant Valid()
        invariant goal == SkipSpaces(if ok then [r] + Rest() else "")
        invariant !ok ==> r == '\0' && Rest() == ""
        decreases |s| - i, ok
      {
        assert ([r] + Rest())[1..] == Rest();
        r, ok := Next();
      }
    }
  }

  /** The rest of an unquoted value that starts with `first`; `None` for a final backslash. */
  method ReadBare(sc: Scanner, first: char) returns (value: Option<string>)
    requires sc.Valid()
    modifies sc
    ensures sc.Valid() && |sc.Rest()| <= old(|sc.Rest()|)
    ensures match ScanBare([first] + old(sc.Rest()))
            case None => value == None
            case Some((v, rest)) => value == Some(v) && rest == sc.Rest()
  {
    ghost var goal := ScanBare([first] + sc.Rest());
    var r, ok, v := first, true, "";
    assert goal.Some? ==> "" + goal.value.0 == goal.value.0;
    while ok && !(IsSpace(r) || r == ';')
      invariant sc.Valid() && |sc.Rest()| <= old(|sc.Rest()|)
      invariant goal == Behind(v, ScanBare(if ok then [r] + sc.Rest() else ""))
      invariant !ok ==> sc.Rest() == ""
      decreases |sc.Rest()|, ok
    {
      ghost var t := [r] + sc.Rest();
      assert t[1..] == sc.Rest();
      if r == '\\' {
        r, ok := sc.Next();
        if !ok {
          return None;
        }
        assert t[1] == r && t[2..] == sc.Rest();
      }
      BehindAhead(v, r, ScanBare(sc.Rest()));
      v := v + [r];
      r, ok := sc.Next();
    }
    assert ok ==> ([r] + sc.Rest())[1..] == sc.Rest();
    assert v + "" == v;
    return Some(v);
  }

  /** The rest of a quoted value; `None` when its closing quote is missing. */
  method ReadQuoted(sc: Scanner) returns (value: Option<string>)
    requires sc.Valid()
    modifies sc
    ensures sc.Valid() && |sc.Rest()| <= old(|sc.Rest()|)
    ensures match ScanQuoted(old(sc.Rest()))
            case None => value == None
            case Some((v, rest)) => value == Some(v) && rest == sc.Rest()
  {
    ghost var goal := ScanQuoted(sc.Rest());
    var v := "";
    assert goal.Some? ==> "" + goal.value.0 == goal.value.0;
    while true
      invariant sc.Valid() && |sc.Rest()| <= old(|sc.Rest()|)
      invariant goal == Behind(v, ScanQuoted(sc.Rest()))
      decreases |sc.Rest()|
    {
      ghost var t := sc.Rest();
      var r, ok := sc.Next();
      if !ok {
        return None;
      }
      assert t[0] == r && t[1..] == sc.Rest();
      if r == '\'' {
        assert v + "" == v;
        return Some(v);
      }
      if r == '\\' {
        var escaped;
        r, escaped := sc.Next();
        if !escaped {
          return None;
        }
        assert t[1] == r && t[2..] == sc.Rest();
      }
      BehindAhead(v, r, ScanQuoted(sc.Rest()));
      v := v + [r];
    }
  }

  /** The value that starts with `first`. */
  method ReadValue(sc: Scanner, first: char) returns (value: Result<string, ParseError>)
    requires sc.Valid()
    modifies sc
    ensures sc.Valid() && |sc.Rest()| <= old(|sc.Rest()|)
    ensures match ScanValue([first] + old(sc.Rest()))
            case Err(e) => value == Err(e)
            case Ok((v, rest)) => value == Ok(v) && rest == sc.Rest()
  {
    assert ([first] + sc.Rest())[1..] == sc.Rest();
    if first != '\'' {
      var bare := ReadBare(sc, first);
      return if bare.None? then Err(DanglingBackslash) else Ok(bare.value);
    }
    var quoted := ReadQuoted(sc);
    return if quoted.None? then Err(Unterminated) else Ok(quoted.value);
  }

  /** A scan whose first characters have already been read. */
  ghost function Behind(v: string, r: Option<(string, string)>): Option<(string, string)> {
    match r
    case None => None
    case Some((value, rest)) => Some((v + value, rest))
  }

  lemma BehindAhead(v: string, c: char, r: Option<(string, string)>)
    ensures Behind(v, Ahead(c, r)) == Behind(v + [c], r)
  {
    assert r.Some? ==> v + ([c] + r.value.0) == v + [c] + r.value.0;
  }

  /** A parse whose first assignments have already been made. */
  ghost function After(done: seq<Pair>, p: Parsed): Parsed {
    Parsed(done + p.pairs, p.error)
  }

  lemma AfterAssigning(done: seq<Pair>, p: Pair, rest: Parsed)
    ensures After(done, Assigning(p, rest)) == After(done + [p], rest)
  {
    assert done + ([p] + rest.pairs) == done + [p] + rest.pairs;
  }

  lemma {:induction false} StoreLast(values: Values, done: seq<Pair>, p: Pair)
    ensures Store(values, done + [p]) == Store(values, done)[p.0 := p.1]
    decreases |done|
  {
    if done == [] {
      assert ([] + [p])[1..] == [];
    } else {
      assert (done + [p])[1..] == done[1..] + [p];
      StoreLast(values[done[0].0 := done[0].1], done[1..], p);
    }
  }

  lemma KeyStep(key: string, c: char, rest: string)
    requires !IsSpace(c) && c != '='
    ensures key + ScanKey([c] + rest).0 == key + [c] + ScanKey(rest).0
    ensures ScanKey([c] + rest).1 == ScanKey(rest).1
  {
    assert ([c] + rest)[1..] == rest;
    Associative(key, [c], ScanKey(rest).0);
  }

  class Options {
    var values: Values

    constructor ()
      ensures values == map[]
    {
      values := map[];
    }

    /** The loop over one key that starts with `first`; `r` and `ok` are the scanner's answer to
        the character behind the key and its spaces. */
    method ReadKey(sc: Scanner, first: char) returns (key: string, r: char, ok: bool)
      requires sc.Valid() && !IsSpace(first)
      modifies sc
      ensures sc.Valid() && |sc.Rest()| <= old(|sc.Rest()|)
      ensures var (k, afterKey) := ScanKey([first] + old(sc.Rest()));
              key == k && SkipSpaces(afterKey) == if ok then [r] + sc.Rest() else ""
      ensures !ok ==> r == '\0'
    {
      ghost var t := [first] + sc.Rest();
      key, r, ok := "", first, true;
      assert key + ScanKey(t).0 == ScanKey(t).0;
      while ok && !IsSpace(r) && r != '='
        invariant sc.Valid() && |sc.Rest()| <= old(|sc.Rest()|)
        invariant ScanKey(t).0 == key + ScanKey(if ok then [r] + sc.Rest() else "").0
        invariant ScanKey(t).1 == ScanKey(if ok then [r] + sc.Rest() else "").1
        invariant !ok ==> r == '\0' && sc.Rest() == ""
        decreases |sc.Rest()|, ok
      {
        KeyStep(key, r, sc.Rest());
        key := key + [r];
        r, ok := sc.Next();
      }
      assert key + "" == key;
      ghost var afterKey := if ok then [r] + sc.Rest() else "";
      assert ok ==> afterKey[1..] == sc.Rest();
      if r != '=' {
        r, ok := sc.SkipToNonSpace();
      }
    }

    /** `parseOpts`: the assignments made before an error stay made. */
    method ParseOpts(name: string) returns (error: Option<ParseError>)
      modifies this
      ensures values == Store(old(values), ParsePairs(name).pairs)
      ensures error == ParsePairs(name).error
    {
      var sc := new Scanner(name);
      ghost var done: seq<Pair> := [];
      assert [] + ParsePairs(name).pairs == ParsePairs(name).pairs;
      while true
        invariant sc.Valid() && fresh(sc)
        invariant ParsePairs(name) == After(done, ParsePairs(sc.Rest()))
        invariant values == Store(old(values), done)
        decreases |sc.Rest()|
      {
        assert done + [] == done;
        var r, ok := sc.SkipToNonSpace();
        if !ok {
          return None;
        }
        var key;
        key, r, ok := ReadKey(sc, r);
        if r != '=' || !ok {
          return Some(MissingEquals(key));
        }
        assert ([r] + sc.Rest())[1..] == sc.Rest();
        r, ok := sc.SkipToNonSpace();
        if !ok {
          StoreLast(old(values), done, (key, ""));
          values := values[key := ""];
          return None;
        }
        var value := ReadValue(sc, r);
        if value.Err? {
          return Some(value.error);
        }
        AfterAssigning(done, (key, value.value), ParsePairs(sc.Rest()));
        StoreLast(old(values), done, (key, value.value));
        done := done + [(key, value.value)];
        values := values[key := value.value];
      }
    }
  }
}
