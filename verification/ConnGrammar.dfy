/** The grammar of key/value connection strings as the option parser reads them: every text has a
    form of this grammar, and its form says which assignments are made and which error ends it. */
module ConnGrammar {
  import opened Common
  import opened ConnString

  // ---------- the parts of a text ----------

  /** A character of a value, written as itself or behind a backslash. */
  datatype ValueChar = ValueChar(c: char, escaped: bool)

  /** A key with the spaces around it, and the equals sign with the spaces behind it. */
  datatype Head = Head(lead: string, key: string, before: string, after: string)

  /** An unquoted value ends in a space or a semicolon. */
  datatype Value = Bare(chars: seq<ValueChar>, end: char) | Quoted(chars: seq<ValueChar>)

  datatype Assignment = Assignment(head: Head, value: Value)

  /** What stands behind the last complete assignment. The last three forms are errors. */
  datatype Tail =
    | Blank(spaces: string)
    | NoValue(head: Head)
    | LastBare(head: Head, chars: seq<ValueChar>)
    | NoEquals(lead: string, key: string, before: string, rest: string)
    | LoneBackslash(head: Head, chars: seq<ValueChar>)
    | Unclosed(head: Head, chars: seq<ValueChar>, backslash: bool)

  predicate AllSpaces(s: string) {
    forall i :: 0 <= i < |s| ==> IsSpace(s[i])
  }

  predicate PlainKey(k: string) {
    forall i :: 0 <= i < |k| ==> !IsSpace(k[i]) && k[i] != '='
  }

  predicate ValidHead(h: Head) {
    AllSpaces(h.lead) && PlainKey(h.key) && AllSpaces(h.before) && AllSpaces(h.after)
  }

  predicate BareChars(chars: seq<ValueChar>) {
    forall k :: 0 <= k < |chars| && !chars[k].escaped ==> !IsSpace(chars[k].c) && chars[k].c != ';' && chars[k].c != '\\'
  }

  predicate QuotedChars(chars: seq<ValueChar>) {
    forall k :: 0 <= k < |chars| && !chars[k].escaped ==> chars[k].c != '\'' && chars[k].c != '\\'
  }

  /** An unquoted value does not start with a quote. */
  predicate StartsBare(chars: seq<ValueChar>) {
    BareChars(chars) && (chars != [] ==> chars[0].escaped || chars[0].c != '\'')
  }

  predicate ValidValue(v: Value) {
    match v
    case Bare(chars, end) => StartsBare(chars) && (end == ';' || (IsSpace(end) && chars != []))
    case Quoted(chars) => QuotedChars(chars)
  }

  predicate ValidAssignment(a: Assignment) {
    ValidHead(a.head) && ValidValue(a.value)
  }

  predicate ValidTail(t: Tail) {
    match t
    case Blank(spaces) => AllSpaces(spaces)
    case NoValue(h) => ValidHead(h)
    case LastBare(h, chars) => ValidHead(h) && chars != [] && StartsBare(chars)
    case NoEquals(lead, key, before, rest) =>
      && AllSpaces(lead) && PlainKey(key) && key != "" && AllSpaces(before)
      && (rest != "" ==> before != "" && !IsSpace(rest[0]) && rest[0] != '=')
    case LoneBackslash(h, chars) => ValidHead(h) && StartsBare(chars)
    case Unclosed(h, chars, _) => ValidHead(h) && QuotedChars(chars)
  }

  predicate ValidText(assignments: seq<Assignment>, tail: Tail) {
    (forall k :: 0 <= k < |assignments| ==> ValidAssignment(assignments[k])) && ValidTail(tail)
  }

  function CharText(q: ValueChar): string {
    if q.escaped then ['\\', q.c] else [q.c]
  }

  function CharsText(chars: seq<ValueChar>): string {
    if chars == [] then "" else CharText(chars[0]) + CharsText(chars[1..])
  }

  function CharsValue(chars: seq<ValueChar>): string {
    if chars == [] then "" else [chars[0].c] + CharsValue(chars[1..])
  }

  function HeadText(h: Head): string {
    h.lead + (h.key + (h.before + ("=" + h.after)))
  }

  function ValueText(v: Value): string {
    match v
    case Bare(chars, end) => CharsText(chars) + [end]
    case Quoted(chars) => "'" + (CharsText(chars) + "'")
  }

  function TailText(t: Tail): string {
    match t
    case Blank(spaces) => spaces
    case NoValue(h) => HeadText(h)
    case LastBare(h, chars) => HeadText(h) + CharsText(chars)
    case NoEquals(lead, key, before, rest) => lead + (key + (before + rest))
    case LoneBackslash(h, chars) => HeadText(h) + (CharsText(chars) + "\\")
    case Unclosed(h, chars, backslash) => HeadText(h) + ("'" + (CharsText(chars) + (if backslash then "\\" else "")))
  }

  function TextOf(assignments: seq<Assignment>, tail: Tail): string {
    if assignments == [] then TailText(tail)
    else HeadText(assignments[0].head) + (ValueText(assignments[0].value) + TextOf(assignments[1..], tail))
  }

  // ---------- what a text means ----------

  function PairOf(a: Assignment): Pair {
    (a.head.key, CharsValue(a.value.chars))
  }

  function TailMeaning(t: Tail): Parsed {
    match t
    case Blank(_) => Parsed([], None)
    case NoValue(h) => Parsed([(h.key, "")], None)
    case LastBare(h, chars) => Parsed([(h.key, CharsValue(chars))], None)
    case NoEquals(_, key, _, _) => Parsed([], Some(MissingEquals(key)))
    case LoneBackslash(_, _) => Parsed([], Some(DanglingBackslash))
    case Unclosed(_, _, _) => Parsed([], Some(Unterminated))
  }

  function Meaning(assignments: seq<Assignment>, tail: Tail): Parsed {
    if assignments == [] then TailMeaning(tail)
    else Assigning(PairOf(assignments[0]), Meaning(assignments[1..], tail))
  }

  // ---------- heads ----------

  lemma {:induction false} SkipsSpaces(spaces: string, rest: string)
    requires AllSpaces(spaces) && (rest != "" ==> !IsSpace(rest[0]))
    ensures SkipSpaces(spaces + rest) == rest
  {
    if spaces == "" {
      assert spaces + rest == rest;
    } else {
      assert (spaces + rest)[1..] == spaces[1..] + rest;
      SkipsSpaces(spaces[1..], rest);
    }
  }

  lemma {:induction false} ScansKey(key: string, rest: string)
    requires PlainKey(key) && (rest != "" ==> IsSpace(rest[0]) || rest[0] == '=')
    ensures ScanKey(key + rest) == (key, rest)
  {
    if key == "" {
      assert key + rest == rest;
    } else {
      assert (key + rest)[1..] == key[1..] + rest;
      ScansKey(key[1..], rest);
      assert [key[0]] + key[1..] == key;
    }
  }

  lemma HeadRegrouped(h: Head, rest: string)
    ensures HeadText(h) + rest == h.lead + (h.key + (h.before + ("=" + (h.after + rest))))
  {
    Associative(h.lead, h.key + (h.before + ("=" + h.after)), rest);
    Associative(h.key, h.before + ("=" + h.after), rest);
    Associative(h.before, "=" + h.after, rest);
    Associative("=", h.after, rest);
  }

  /** Behind the spaces of a text, a key and its spaces come to what follows them. */
  lemma ReachesBehindKey(lead: string, key: string, before: string, rest: string)
    requires AllSpaces(lead) && PlainKey(key) && AllSpaces(before)
    requires rest != "" ==> !IsSpace(rest[0]) && (before == "" ==> rest[0] == '=')
    requires key == "" ==> rest != "" && rest[0] == '='
    ensures var t := SkipSpaces(lead + (key + (before + rest)));
            && t != "" && ScanKey(t).0 == key && SkipSpaces(ScanKey(t).1) == rest
  {
    if key == "" {
      assert lead + (key + (before + rest)) == lead + before + rest;
      SkipsSpaces(lead + before, rest);
      ScansKey("", rest);
      assert "" + rest == rest && "" + (before + rest) == before + rest;
      SkipsSpaces("", rest);
    } else {
      var t := key + (before + rest);
      assert t[0] == key[0];
      SkipsSpaces(lead, t);
      assert before != "" ==> (before + rest)[0] == before[0];
      assert before == "" ==> before + rest == rest;
      ScansKey(key, before + rest);
      SkipsSpaces(before, rest);
    }
  }

  lemma HeadParses(h: Head, rest: string)
    requires ValidHead(h) && (rest != "" ==> !IsSpace(rest[0]))
    ensures ParsePairs(HeadText(h) + rest) == ParseValue(h.key, rest)
  {
    HeadRegrouped(h, rest);
    var equals := "=" + (h.after + rest);
    ReachesBehindKey(h.lead, h.key, h.before, equals);
    assert equals[1..] == h.after + rest;
    SkipsSpaces(h.after, rest);
  }

  // ---------- values ----------

  lemma BareStep(q: ValueChar, rest: string)
    requires BareChars([q])
    ensures ScanBare(CharText(q) + rest) == Ahead(q.c, ScanBare(rest))
  {
    assert [q][0] == q;
    var t := CharText(q) + rest;
    if q.escaped {
      assert t[2..] == rest;
    } else {
      assert t[1..] == rest;
    }
  }

  /** An unquoted value is read character by character, up to and including the space or semicolon
      behind it. */
  lemma {:induction false} BareReadsBack(chars: seq<ValueChar>, end: string)
    requires BareChars(chars) && (end != "" ==> IsSpace(end[0]) || end[0] == ';')
    ensures ScanBare(CharsText(chars) + end) == Some((CharsValue(chars), if end == "" then "" else end[1..]))
    decreases |chars|
  {
    if chars == [] {
      assert CharsText(chars) + end == end;
    } else {
      BareReadsBack(chars[1..], end);
      Associative(CharText(chars[0]), CharsText(chars[1..]), end);
      BareStep(chars[0], CharsText(chars[1..]) + end);
    }
  }

  lemma {:induction false} LoneBackslashFails(chars: seq<ValueChar>)
    requires BareChars(chars)
    ensures ScanBare(CharsText(chars) + "\\") == None
    decreases |chars|
  {
    if chars == [] {
      assert CharsText(chars) + "\\" == "\\";
    } else {
      LoneBackslashFails(chars[1..]);
      Associative(CharText(chars[0]), CharsText(chars[1..]), "\\");
      BareStep(chars[0], CharsText(chars[1..]) + "\\");
    }
  }

  lemma QuotedStep(q: ValueChar, rest: string)
    requires QuotedChars([q])
    ensures ScanQuoted(CharText(q) + rest) == Ahead(q.c, ScanQuoted(rest))
  {
    assert [q][0] == q;
    var t := CharText(q) + rest;
    if q.escaped {
      assert t[2..] == rest;
    } else {
      assert t[1..] == rest;
    }
  }

  lemma {:induction false} QuotedReadsBack(chars: seq<ValueChar>, rest: string)
    requires QuotedChars(chars)
    ensures ScanQuoted(CharsText(chars) + ("'" + rest)) == Some((CharsValue(chars), rest))
    decreases |chars|
  {
    var end := "'" + rest;
    if chars == [] {
      assert CharsText(chars) + end == end && end[1..] == rest;
    } else {
      QuotedReadsBack(chars[1..], rest);
      Associative(CharText(chars[0]), CharsText(chars[1..]), end);
      QuotedStep(chars[0], CharsText(chars[1..]) + end);
    }
  }

  lemma {:induction false} UnclosedFails(chars: seq<ValueChar>, end: string)
    requires QuotedChars(chars) && (end == "" || end == "\\")
    ensures ScanQuoted(CharsText(chars) + end) == None
    decreases |chars|
  {
    if chars == [] {
      assert CharsText(chars) + end == end;
    } else {
      UnclosedFails(chars[1..], end);
      Associative(CharText(chars[0]), CharsText(chars[1..]), end);
      QuotedStep(chars[0], CharsText(chars[1..]) + end);
    }
  }

  lemma StartsAsBare(chars: seq<ValueChar>, end: string)
    requires StartsBare(chars) && (chars == [] ==> end != "" && end[0] != '\'' && !IsSpace(end[0]))
    ensures var t := CharsText(chars) + end; t != "" && t[0] != '\'' && !IsSpace(t[0])
  {
    if chars != [] {
      assert (CharsText(chars) + end)[0] == CharText(chars[0])[0];
    } else {
      assert CharsText(chars) + end == end;
    }
  }

  // ---------- every form is read as it is meant ----------

  /** An unquoted value is assigned to the key in front of it, whatever spaces stand around the
      equals sign, and the text behind the terminator is left. */
  lemma BareAssignmentParses(h: Head, chars: seq<ValueChar>, end: char, rest: string)
    requires ValidHead(h) && ValidValue(Bare(chars, end))
    ensures ParsePairs(HeadText(h) + (CharsText(chars) + ([end] + rest))) ==
            Assigning((h.key, CharsValue(chars)), ParsePairs(rest))
  {
    var t := CharsText(chars) + ([end] + rest);
    StartsAsBare(chars, [end] + rest);
    HeadParses(h, t);
    BareReadsBack(chars, [end] + rest);
    assert ([end] + rest)[1..] == rest;
  }

  lemma QuotedAssignmentParses(h: Head, chars: seq<ValueChar>, rest: string)
    requires ValidHead(h) && QuotedChars(chars)
    ensures ParsePairs(HeadText(h) + ("'" + (CharsText(chars) + ("'" + rest)))) ==
            Assigning((h.key, CharsValue(chars)), ParsePairs(rest))
  {
    var t := CharsText(chars) + ("'" + rest);
    HeadParses(h, "'" + t);
    QuotedReadsBack(chars, rest);
    assert ("'" + t)[1..] == t;
  }

  lemma AssignmentParses(a: Assignment, rest: string)
    requires ValidAssignment(a)
    ensures ParsePairs(HeadText(a.head) + (ValueText(a.value) + rest)) == Assigning(PairOf(a), ParsePairs(rest))
  {
    match a.value {
      case Bare(chars, end) =>
        Associative(CharsText(chars), [end], rest);
        BareAssignmentParses(a.head, chars, end, rest);
      case Quoted(chars) =>
        Associative("'", CharsText(chars) + "'", rest);
        Associative(CharsText(chars), "'", rest);
        QuotedAssignmentParses(a.head, chars, rest);
    }
  }

  lemma ValueParses(h: Head, t: string, r: Result<(string, string), ParseError>)
    requires ValidHead(h) && t != "" && !IsSpace(t[0]) && ScanValue(t) == r
    requires r.Ok? ==> r.value.1 == ""
    ensures ParsePairs(HeadText(h) + t) ==
            match r
            case Err(e) => Parsed([], Some(e))
            case Ok((value, _)) => Parsed([(h.key, value)], None)
  {
    HeadParses(h, t);
    assert ParsePairs("") == Parsed([], None);
    assert r.Ok? ==> [(h.key, r.value.0)] + [] == [(h.key, r.value.0)];
  }

  lemma NoEqualsParses(lead: string, key: string, before: string, rest: string)
    requires ValidTail(NoEquals(lead, key, before, rest))
    ensures ParsePairs(lead + (key + (before + rest))) == Parsed([], Some(MissingEquals(key)))
  {
    var t := key + (before + rest);
    assert t[0] == key[0];
    SkipsSpaces(lead, t);
    assert before != "" ==> (before + rest)[0] == before[0];
    ScansKey(key, before + rest);
    SkipsSpaces(before, rest);
  }

  lemma TailParses(tail: Tail)
    requires ValidTail(tail)
    ensures ParsePairs(TailText(tail)) == TailMeaning(tail)
  {
    match tail {
      case Blank(spaces) =>
        SkipsSpaces(spaces, "");
        assert spaces + "" == spaces;
      case NoValue(h) =>
        HeadParses(h, "");
        assert HeadText(h) + "" == HeadText(h);
      case LastBare(h, chars) =>
        StartsAsBare(chars, "");
        BareReadsBack(chars, "");
        assert CharsText(chars) + "" == CharsText(chars);
        ValueParses(h, CharsText(chars), Ok((CharsValue(chars), "")));
      case NoEquals(lead, key, before, rest) =>
        NoEqualsParses(lead, key, before, rest);
      case LoneBackslash(h, chars) =>
        StartsAsBare(chars, "\\");
        LoneBackslashFails(chars);
        ValueParses(h, CharsText(chars) + "\\", Err(DanglingBackslash));
      case Unclosed(h, chars, backslash) =>
        var t := CharsText(chars) + (if backslash then "\\" else "");
        UnclosedFails(chars, if backslash then "\\" else "");
        assert ("'" + t)[1..] == t;
        ValueParses(h, "'" + t, Err(Unterminated));
    }
  }

  lemma {:induction false} TextParses(assignments: seq<Assignment>, tail: Tail)
    requires ValidText(assignments, tail)
    ensures ParsePairs(TextOf(assignments, tail)) == Meaning(assignments, tail)
    decreases |assignments|
  {
    if assignments == [] {
      TailParses(tail);
    } else {
      AssignmentParses(assignments[0], TextOf(assignments[1..], tail));
      TextParses(assignments[1..], tail);
    }
  }

  // ---------- every text has a form ----------

  lemma {:induction false} TakesSpaces(t: string) returns (spaces: string)
    ensures AllSpaces(spaces) && t == spaces + SkipSpaces(t)
  {
    if t != "" && IsSpace(t[0]) {
      var more := TakesSpaces(t[1..]);
      spaces := [t[0]] + more;
      assert t == [t[0]] + t[1..];
    } else {
      spaces := "";
    }
  }

  lemma {:induction false} TakesKey(t: string)
    ensures var (key, rest) := ScanKey(t);
            && t == key + rest && PlainKey(key) && (rest != "" ==> IsSpace(rest[0]) || rest[0] == '=')
  {
    if t != "" && !IsSpace(t[0]) && t[0] != '=' {
      TakesKey(t[1..]);
      assert t == [t[0]] + t[1..];
    }
  }

  /** The characters of an unquoted value and what ends it. */
  lemma {:induction false} TakesBare(t: string) returns (chars: seq<ValueChar>, end: string)
    ensures BareChars(chars) && t == CharsText(chars) + end
    ensures if ScanBare(t).None? then end == "\\" else end != "" ==> IsSpace(end[0]) || end[0] == ';'
    ensures chars != [] && !chars[0].escaped ==> chars[0].c == t[0]
    decreases |t|
  {
    if t == "" || IsSpace(t[0]) || t[0] == ';' || t == "\\" {
      chars, end := [], t;
    } else {
      var k := if t[0] == '\\' then 2 else 1;
      var more;
      more, end := TakesBare(t[k..]);
      var q := ValueChar(t[k - 1], k == 2);
      chars := [q] + more;
      assert chars[1..] == more && t == CharText(q) + t[k..];
      Associative(CharText(q), CharsText(more), end);
    }
  }

  /** The characters of a quoted value and what ends it. */
  lemma {:induction false} TakesQuoted(t: string) returns (chars: seq<ValueChar>, end: string)
    ensures QuotedChars(chars) && t == CharsText(chars) + end
    ensures if ScanQuoted(t).None? then end == "" || end == "\\" else end != "" && end[0] == '\''
    decreases |t|
  {
    if t == "" || t[0] == '\'' || t == "\\" {
      chars, end := [], t;
    } else {
      var k := if t[0] == '\\' then 2 else 1;
      var more;
      more, end := TakesQuoted(t[k..]);
      var q := ValueChar(t[k - 1], k == 2);
      chars := [q] + more;
      assert chars[1..] == more && t == CharText(q) + t[k..];
      Associative(CharText(q), CharsText(more), end);
    }
  }

  /** The form of a text: its tail, or its first assignment and the text behind it. */
  datatype Start = Ends(tail: Tail) | Goes(first: Assignment, rest: string)

  predicate IsStart(s: Start, text: string) {
    match s
    case Ends(tail) => ValidTail(tail) && text == TailText(tail)
    case Goes(a, rest) => ValidAssignment(a) && text == HeadText(a.head) + (ValueText(a.value) + rest) && |rest| < |text|
  }

  lemma BareStart(h: Head, v: string, text: string) returns (s: Start)
    requires ValidHead(h) && v != "" && !IsSpace(v[0]) && v[0] != '\'' && text == HeadText(h) + v
    ensures IsStart(s, text)
  {
    var chars, end := TakesBare(v);
    if ScanBare(v).None? {
      s := Ends(LoneBackslash(h, chars));
    } else if end == "" {
      assert CharsText(chars) + "" == CharsText(chars);
      s := Ends(LastBare(h, chars));
    } else {
      s := Goes(Assignment(h, Bare(chars, end[0])), end[1..]);
      assert end == [end[0]] + end[1..];
      Associative(CharsText(chars), [end[0]], end[1..]);
      assert chars == [] ==> v == end;
    }
  }

  lemma QuotedStart(h: Head, v: string, text: string) returns (s: Start)
    requires ValidHead(h) && text == HeadText(h) + ("'" + v)
    ensures IsStart(s, text)
  {
    var chars, end := TakesQuoted(v);
    if ScanQuoted(v).None? {
      s := Ends(Unclosed(h, chars, end != ""));
    } else {
      s := Goes(Assignment(h, Quoted(chars)), end[1..]);
      assert end == "'" + end[1..];
      Associative("'", CharsText(chars) + "'", end[1..]);
      Associative(CharsText(chars), "'", end[1..]);
    }
  }

  lemma ValueStart(h: Head, v: string, text: string) returns (s: Start)
    requires ValidHead(h) && (v != "" ==> !IsSpace(v[0])) && text == HeadText(h) + v
    ensures IsStart(s, text)
  {
    if v == "" {
      assert HeadText(h) + "" == HeadText(h);
      s := Ends(NoValue(h));
    } else if v[0] == '\'' {
      assert v == "'" + v[1..];
      s := QuotedStart(h, v[1..], text);
    } else {
      s := BareStart(h, v, text);
    }
  }

  lemma Regrouped(lead: string, key: string, before: string, rest: string, afterKey: string, t: string, text: string)
    requires text == lead + t && t == key + afterKey && afterKey == before + rest
    ensures text == lead + (key + (before + rest))
  {}

  /** The first key of a text that is not blank, with the spaces around it. */
  lemma TakesHead(text: string) returns (lead: string, key: string, before: string, rest: string)
    requires SkipSpaces(text) != ""
    ensures text == lead + (key + (before + rest))
    ensures AllSpaces(lead) && PlainKey(key) && AllSpaces(before) && (rest != "" ==> !IsSpace(rest[0]))
    ensures rest == "" || rest[0] != '=' ==> key != "" && (rest != "" ==> before != "")
  {
    lead := TakesSpaces(text);
    var t := SkipSpaces(text);
    var afterKey := ScanKey(t).1;
    key := ScanKey(t).0;
    TakesKey(t);
    before := TakesSpaces(afterKey);
    rest := SkipSpaces(afterKey);
    assert key == "" ==> afterKey == t;
    assert before == "" ==> rest == afterKey;
    Regrouped(lead, key, before, rest, afterKey, t, text);
  }

  lemma EveryStart(text: string) returns (s: Start)
    ensures IsStart(s, text)
  {
    if SkipSpaces(text) == "" {
      var spaces := TakesSpaces(text);
      assert text == spaces;
      s := Ends(Blank(spaces));
      return;
    }
    var lead, key, before, rest := TakesHead(text);
    if rest == "" || rest[0] != '=' {
      s := Ends(NoEquals(lead, key, before, rest));
    } else {
      hide SkipSpaces, ScanKey;
      var after := TakesSpaces(rest[1..]);
      var v := SkipSpaces(rest[1..]);
      var h := Head(lead, key, before, after);
      assert rest == "=" + (after + v);
      HeadRegrouped(h, v);
      s := ValueStart(h, v, text);
    }
  }

  lemma {:induction false} EveryTextHasForm(text: string) returns (assignments: seq<Assignment>, tail: Tail)
    ensures ValidText(assignments, tail) && text == TextOf(assignments, tail)
    decreases |text|
  {
    var s := EveryStart(text);
    match s {
      case Ends(t) =>
        assignments, tail := [], t;
      case Goes(a, rest) =>
        var more;
        more, tail := EveryTextHasForm(rest);
        assignments := [a] + more;
        assert assignments[1..] == more;
        assert forall k :: 1 <= k < |assignments| ==> assignments[k] == more[k - 1];
    }
  }

  /** The parser's result for a text is the meaning of its form, errors included; every text has a
      form, and all its forms mean the same. */
  lemma ParsesExactlyForms(text: string, p: Parsed)
    ensures ParsePairs(text) == p <==>
              exists assignments, tail {:trigger TextOf(assignments, tail)} ::
                ValidText(assignments, tail) && text == TextOf(assignments, tail) && p == Meaning(assignments, tail)
  {
    var assignments, tail := EveryTextHasForm(text);
    TextParses(assignments, tail);
    if others, t :| ValidText(others, t) && text == TextOf(others, t) && p == Meaning(others, t) {
      TextParses(others, t);
    }
  }
}
