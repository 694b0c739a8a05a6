/** Printing key/value connection strings, and exactly when the option parser reads them back. */
module ConnPrinter {
  import opened Common
  import opened ConnGrammar
  import opened ConnString

  // ---------- escaping ----------

  const CAP: nat := 100

  /** The library's replacement, for a replacement text that puts a backslash before `c`: the
      first `n` occurrences only. */
  function PutBackslash(v: string, c: char, n: nat): string {
    if v == "" then ""
    else if v[0] == c && n > 0 then ['\\', c] + PutBackslash(v[1..], c, n - 1)
    else [v[0]] + PutBackslash(v[1..], c, n)
  }

  /** `escapeForPostgres`: backslashes first, then quotes, at most 100 of each. */
  function Escape(v: string): string {
    PutBackslash(PutBackslash(v, '\\', CAP), '\'', CAP)
  }

  /** The same in one pass, with what is left of both caps. */
  function EscapeWithin(v: string, backslashes: nat, quotes: nat): string {
    if v == "" then ""
    else if v[0] == '\\' && backslashes > 0 then ['\\', '\\'] + EscapeWithin(v[1..], backslashes - 1, quotes)
    else if v[0] == '\'' && quotes > 0 then ['\\', '\''] + EscapeWithin(v[1..], backslashes, quotes - 1)
    else [v[0]] + EscapeWithin(v[1..], backslashes, quotes)
  }

  lemma {:induction false} OnePass(v: string, backslashes: nat, quotes: nat)
    ensures PutBackslash(PutBackslash(v, '\\', backslashes), '\'', quotes) == EscapeWithin(v, backslashes, quotes)
  {
    if v != "" {
      var inner := PutBackslash(v, '\\', backslashes);
      if v[0] == '\\' && backslashes > 0 {
        assert inner[1..] == ['\\'] + PutBackslash(v[1..], '\\', backslashes - 1);
        assert inner[1..][1..] == PutBackslash(v[1..], '\\', backslashes - 1);
        OnePass(v[1..], backslashes - 1, quotes);
        var t := EscapeWithin(v[1..], backslashes - 1, quotes);
        assert ['\\'] + (['\\'] + t) == ['\\', '\\'] + t;
      } else {
        assert inner[1..] == PutBackslash(v[1..], '\\', backslashes);
        OnePass(v[1..], backslashes, if v[0] == '\'' && quotes > 0 then quotes - 1 else quotes);
      }
    }
  }

  function CountOf(v: string, c: char): nat {
    if v == "" then 0 else (if v[0] == c then 1 else 0) + CountOf(v[1..], c)
  }

  /** What a caller can check before printing. */
  predicate WithinCaps(v: string) {
    CountOf(v, '\\') <= CAP && CountOf(v, '\'') <= CAP
  }

  // ---------- one value ----------

  lemma ScanPlain(c: char, t: string)
    requires c != '\'' && c != '\\'
    ensures ScanQuoted([c] + t) == Ahead(c, ScanQuoted(t))
  {
    assert ([c] + t)[1..] == t;
  }

  lemma ScanEscaped(c: char, t: string)
    ensures ScanQuoted(['\\', c] + t) == Ahead(c, ScanQuoted(t))
  {
    assert (['\\', c] + t)[2..] == t;
  }

  /** Within the caps a value is read back, and the text behind it is left. */
  lemma {:induction false} WithinCapsReadsBack(v: string, backslashes: nat, quotes: nat, rest: string)
    requires CountOf(v, '\\') <= backslashes && CountOf(v, '\'') <= quotes
    ensures ScanQuoted(EscapeWithin(v, backslashes, quotes) + ("'" + rest)) == Some((v, rest))
  {
    var end := "'" + rest;
    if v == "" {
      assert EscapeWithin(v, backslashes, quotes) + end == end && end[1..] == rest;
    } else if v[0] == '\\' {
      WithinCapsReadsBack(v[1..], backslashes - 1, quotes, rest);
      Associative(['\\', '\\'], EscapeWithin(v[1..], backslashes - 1, quotes), end);
      ScanEscaped('\\', EscapeWithin(v[1..], backslashes - 1, quotes) + end);
    } else if v[0] == '\'' {
      WithinCapsReadsBack(v[1..], backslashes, quotes - 1, rest);
      Associative(['\\', '\''], EscapeWithin(v[1..], backslashes, quotes - 1), end);
      ScanEscaped('\'', EscapeWithin(v[1..], backslashes, quotes - 1) + end);
    } else {
      WithinCapsReadsBack(v[1..], backslashes, quotes, rest);
      Associative([v[0]], EscapeWithin(v[1..], backslashes, quotes), end);
      ScanPlain(v[0], EscapeWithin(v[1..], backslashes, quotes) + end);
    }
    assert v != "" ==> [v[0]] + v[1..] == v;
  }

  /** The value read from `t` is `v`. */
  predicate ReadsAs(t: string, v: string) {
    ScanQuoted(t).Some? && ScanQuoted(t).value.0 == v
  }

  lemma ReadsAhead(c: char, t: string, tail: string, v: string)
    requires ScanQuoted(t) == Ahead(c, ScanQuoted(tail)) && v != ""
    ensures ReadsAs(t, v) <==> v[0] == c && ReadsAs(tail, v[1..])
  {
    assert v == [v[0]] + v[1..];
  }

  function Backslashes(k: nat): string {
    seq(k, _ => '\\')
  }

  /** With no escapes left for backslashes, a scan that is `owed` backslashes behind never
      catches up: it cannot yield those backslashes followed by the rest of the value. */
  lemma {:induction false} NeverCatchesUp(v: string, quotes: nat, rest: string, owed: nat)
    requires owed > 0 || (v != "" && v[0] == '\\')
    ensures !ReadsAs(EscapeWithin(v, 0, quotes) + ("'" + rest), Backslashes(owed) + v)
    decreases |v|
  {
    var end := "'" + rest;
    var t := EscapeWithin(v, 0, quotes) + end;
    var expected := Backslashes(owed) + v;
    assert expected[0] == '\\' && |expected| == owed + |v|;
    if v == "" {
      assert t[0] == '\'';
    } else if v[0] == '\\' {
      var v', after := v[1..], EscapeWithin(v[1..], 0, quotes) + end;
      Associative(['\\'], EscapeWithin(v', 0, quotes), end);
      assert t == ['\\'] + after;
      var c, tail := after[0], after[1..];
      assert t == ['\\', c] + tail;
      ScanEscaped(c, tail);
      ReadsAhead(c, t, tail, expected);
      if v' != "" && v'[0] == '\\' {
        Associative(['\\'], EscapeWithin(v'[1..], 0, quotes), end);
        assert tail == EscapeWithin(v'[1..], 0, quotes) + end;
        NeverCatchesUp(v'[1..], quotes, rest, owed + 1);
        assert expected[1..] == Backslashes(owed + 1) + v'[1..];
      } else if v' != "" && v'[0] == '\'' && quotes > 0 {
        Associative(['\\', '\''], EscapeWithin(v'[1..], 0, quotes - 1), end);
        assert tail[0] == '\'';
      } else {
        assert v' != "" ==> c == v'[0];
      }
    } else if v[0] == '\'' && quotes > 0 {
      var tail := EscapeWithin(v[1..], 0, quotes - 1) + end;
      Associative(['\\', '\''], EscapeWithin(v[1..], 0, quotes - 1), end);
      ScanEscaped('\'', tail);
    } else {
      assert t[0] == v[0];
    }
  }

  /** Beyond the caps the value that is read differs from the one that was printed. */
  lemma {:induction false} BeyondCapsReadsOther(v: string, backslashes: nat, quotes: nat, rest: string)
    requires CountOf(v, '\\') > backslashes || CountOf(v, '\'') > quotes
    ensures !ReadsAs(EscapeWithin(v, backslashes, quotes) + ("'" + rest), v)
  {
    var end := "'" + rest;
    var t := EscapeWithin(v, backslashes, quotes) + end;
    if v[0] == '\\' && backslashes == 0 {
      NeverCatchesUp(v, quotes, rest, 0);
      assert Backslashes(0) + v == v;
    } else if v[0] == '\'' && quotes == 0 {
      assert t[0] == '\'';
    } else {
      var b := if v[0] == '\\' then backslashes - 1 else backslashes;
      var q := if v[0] == '\'' then quotes - 1 else quotes;
      var t' := EscapeWithin(v[1..], b, q) + end;
      BeyondCapsReadsOther(v[1..], b, q, rest);
      if v[0] == '\\' || v[0] == '\'' {
        Associative(['\\', v[0]], EscapeWithin(v[1..], b, q), end);
        ScanEscaped(v[0], t');
      } else {
        Associative([v[0]], EscapeWithin(v[1..], b, q), end);
        ScanPlain(v[0], t');
      }
      ReadsAhead(v[0], t, t', v);
    }
  }

  /** A printed value is read back exactly when it is within the caps; then its closing quote is
      found as well. */
  lemma ValueReadsBackIffWithinCaps(v: string, rest: string)
    ensures ReadsAs(Escape(v) + ("'" + rest), v) <==> WithinCaps(v)
    ensures WithinCaps(v) ==> ScanQuoted(Escape(v) + ("'" + rest)) == Some((v, rest))
  {
    OnePass(v, CAP, CAP);
    if WithinCaps(v) {
      WithinCapsReadsBack(v, CAP, CAP, rest);
    } else {
      BeyondCapsReadsOther(v, CAP, CAP, rest);
    }
  }

  lemma {:induction false} CountOfRepeated(n: nat, c: char)
    ensures CountOf(seq(n, _ => c), c) == n
  {
    if n > 0 {
      assert seq(n, _ => c)[1..] == seq(n - 1, _ => c);
      CountOfRepeated(n - 1, c);
    }
  }

  /** A value of 100 quotes or backslashes is read back, one of 101 is not. */
  lemma HundredIsTheLimit(c: char, n: nat, rest: string)
    requires c == '\'' || c == '\\'
    ensures ReadsAs(Escape(seq(n, _ => c)) + ("'" + rest), seq(n, _ => c)) <==> n <= 100
  {
    var v: string := seq(n, _ => c);
    CountOfRepeated(n, c);
    AbsentIsNotCounted(v, if c == '\'' then '\\' else '\'');
    ValueReadsBackIffWithinCaps(v, rest);
  }

  // ---------- a list of pairs ----------

  function PairText(p: Pair): string {
    p.0 + "='" + Escape(p.1) + "'"
  }

  function PairTexts(pairs: seq<Pair>): seq<string> {
    seq(|pairs|, i requires 0 <= i < |pairs| => PairText(pairs[i]))
  }

  function PairsText(pairs: seq<Pair>): string
    requires pairs != []
  {
    Join(PairTexts(pairs), ' ')
  }

  predicate AllWithinCaps(pairs: seq<Pair>) {
    forall i :: 0 <= i < |pairs| ==> WithinCaps(pairs[i].1)
  }

  lemma PairTextRegrouped(p: Pair, rest: string)
    ensures PairText(p) + rest == p.0 + ("=" + ("'" + (Escape(p.1) + ("'" + rest))))
  {
    var value := Escape(p.1);
    Associative(p.0 + "='" + value, "'", rest);
    Associative(p.0 + "='", value, "'" + rest);
    Associative(p.0, "='", value + ("'" + rest));
    Associative("=", "'", value + ("'" + rest));
  }

  /** Behind a key the parser goes on with the quoted value. */
  lemma {:induction false} ParsesKey(k: string, quoted: string)
    requires PlainKey(k)
    ensures ParsePairs(k + ("=" + ("'" + quoted))) ==
            match ScanQuoted(quoted)
            case None => Parsed([], Some(Unterminated))
            case Some((value, rest)) => Assigning((k, value), ParsePairs(rest))
  {
    var t := k + ("=" + ("'" + quoted));
    ScansKey(k, "=" + ("'" + quoted));
    assert t[0] == if k == "" then '=' else k[0];
    assert SkipSpaces(t) == t;
    assert ("=" + ("'" + quoted))[1..] == "'" + quoted;
    assert ParsePairs(t) == ParseValue(k, "'" + quoted);
    assert ("'" + quoted)[1..] == quoted;
  }

  /** A pair is parsed back, with the text behind it left, exactly when its value is within the
      caps. */
  lemma ParsesPair(p: Pair, rest: string)
    requires PlainKey(p.0)
    ensures WithinCaps(p.1) ==> ParsePairs(PairText(p) + rest) == Assigning(p, ParsePairs(rest))
    ensures !WithinCaps(p.1) ==> var r := ParsePairs(PairText(p) + rest); r.pairs == [] || r.pairs[0] != p
  {
    var (k, v) := p;
    var quoted := Escape(v) + ("'" + rest);
    PairTextRegrouped(p, rest);
    ParsesKey(k, quoted);
    ValueReadsBackIffWithinCaps(v, rest);
  }

  /** The printed pairs are parsed back in order, without an error, exactly when every value is
      within the caps. */
  lemma {:induction false} PairsReadBackIffWithinCaps(pairs: seq<Pair>)
    requires pairs != [] && forall i :: 0 <= i < |pairs| ==> PlainKey(pairs[i].0)
    ensures ParsePairs(PairsText(pairs)) == Parsed(pairs, None) <==> AllWithinCaps(pairs)
    decreases |pairs|
  {
    var p, tail := pairs[0], pairs[1..];
    assert PlainKey(p.0) && pairs == [p] + tail;
    assert AllWithinCaps(pairs) <==> WithinCaps(p.1) && AllWithinCaps(tail) by {
      assert forall i :: 0 <= i < |tail| ==> tail[i] == pairs[i + 1];
    }
    assert PairTexts(pairs)[1..] == PairTexts(tail);
    if tail == [] {
      ParsesPair(p, "");
      assert PairsText(pairs) == PairText(p) + "";
      assert [p] + [] == pairs;
    } else {
      var rest := " " + PairsText(tail);
      Associative(PairText(p), " ", PairsText(tail));
      assert PairsText(pairs) == PairText(p) + rest;
      ParsesPair(p, rest);
      assert rest[1..] == PairsText(tail);
      assert ParsePairs(rest) == ParsePairs(PairsText(tail));
      PairsReadBackIffWithinCaps(tail);
    }
  }

  // ---------- the connection string ----------

  datatype ConnStringKV = ConnStringKV(
    host: string, database: string, user: string, password: string, port: int, sslMode: string)

  function Digits(n: nat): string {
    if n < 10 then [('0' as int + n) as char] else Digits(n / 10) + [('0' as int + n % 10) as char]
  }

  function Decimal(n: int): string {
    if n < 0 then "-" + Digits(-n) else Digits(n)
  }

  /** The seven pairs, with the default for an empty sslmode. */
  function KVPairs(cs: ConnStringKV): seq<Pair> {
    [ ("host", cs.host),
      ("database", cs.database),
      ("user", cs.user),
      ("password", cs.password),
      ("port", Decimal(cs.port)),
      ("sslmode", if cs.sslMode == "" then "disable" else cs.sslMode),
      ("client_encoding", "UTF8") ]
  }

  /** `KVConnectionString`. */
  method KVConnectionString(cs: ConnStringKV) returns (text: string)
    ensures text == PairsText(KVPairs(cs))
  {
    var kvPairs: seq<Pair> := [];
    kvPairs := kvPairs + [("host", cs.host)];
    kvPairs := kvPairs + [("database", cs.database)];
    kvPairs := kvPairs + [("user", cs.user)];
    kvPairs := kvPairs + [("password", cs.password)];
    kvPairs := kvPairs + [("port", Decimal(cs.port))];
    if cs.sslMode == "" {
      kvPairs := kvPairs + [("sslmode", "disable")];
    } else {
      kvPairs := kvPairs + [("sslmode", cs.sslMode)];
    }
    kvPairs := kvPairs + [("client_encoding", "UTF8")];
    assert kvPairs == KVPairs(cs);
    var result: seq<string> := [];
    while |result| < |kvPairs|
      invariant |result| <= |kvPairs|
      invariant result == PairTexts(kvPairs)[..|result|]
    {
      var pair := kvPairs[|result|];
      result := result + [pair.0 + "='" + Escape(pair.1) + "'"];
    }
    assert result == PairTexts(kvPairs);
    return Join(result, ' ');
  }

  /** The value of a printed number. */
  function DigitsValue(s: string): int
  {
    if s == "" then 0 else DigitsValue(s[..|s| - 1]) * 10 + (s[|s| - 1] as int - '0' as int)
  }

  /** Numbers contain no special characters and can be read back from their text. */
  lemma {:induction false} DigitsAreFaithful(n: nat)
    ensures Digits(n) != "" && forall i :: 0 <= i < |Digits(n)| ==> '0' <= Digits(n)[i] <= '9'
    ensures DigitsValue(Digits(n)) == n && (n > 0 ==> Digits(n)[0] != '0')
  {
    if n >= 10 {
      DigitsAreFaithful(n / 10);
      assert Digits(n)[..|Digits(n)| - 1] == Digits(n / 10);
    } else {
      assert Digits(n)[..0] == "";
    }
  }

  function DecimalValue(s: string): int {
    if s != "" && s[0] == '-' then -DigitsValue(s[1..]) else DigitsValue(s)
  }

  lemma DecimalIsFaithful(n: int)
    ensures DecimalValue(Decimal(n)) == n
  {
    DigitsAreFaithful(if n < 0 then -n else n);
  }

  lemma {:induction false} AbsentIsNotCounted(v: string, c: char)
    requires forall i :: 0 <= i < |v| ==> v[i] != c
    ensures CountOf(v, c) == 0
  {
    if v != "" {
      AbsentIsNotCounted(v[1..], c);
    }
  }

  lemma DecimalWithinCaps(n: int)
    ensures WithinCaps(Decimal(n))
  {
    DigitsAreFaithful(if n < 0 then -n else n);
    AbsentIsNotCounted(Decimal(n), '\\');
    AbsentIsNotCounted(Decimal(n), '\'');
  }

  predicate FieldsWithinCaps(cs: ConnStringKV) {
    && WithinCaps(cs.host) && WithinCaps(cs.database) && WithinCaps(cs.user)
    && WithinCaps(cs.password) && WithinCaps(cs.sslMode)
  }

  lemma PairsWithinCapsIffFields(cs: ConnStringKV)
    ensures AllWithinCaps(KVPairs(cs)) <==> FieldsWithinCaps(cs)
  {
    var pairs := KVPairs(cs);
    DecimalWithinCaps(cs.port);
    AbsentIsNotCounted("disable", '\\');
    AbsentIsNotCounted("disable", '\'');
    AbsentIsNotCounted("UTF8", '\\');
    AbsentIsNotCounted("UTF8", '\'');
    if AllWithinCaps(pairs) {
      assert WithinCaps(pairs[0].1) && WithinCaps(pairs[1].1) && WithinCaps(pairs[2].1);
      assert WithinCaps(pairs[3].1) && WithinCaps(pairs[5].1);
    }
  }

  lemma KeysArePlain(cs: ConnStringKV)
    ensures forall i :: 0 <= i < |KVPairs(cs)| ==> PlainKey(KVPairs(cs)[i].0)
  {}

  /** The parser reads a printed connection string as the seven printed pairs exactly when no
      field has more than 100 backslashes or more than 100 single quotes. */
  lemma ConnectionStringReadsBackIff(cs: ConnStringKV)
    ensures ParsePairs(PairsText(KVPairs(cs))) == Parsed(KVPairs(cs), None) <==> FieldsWithinCaps(cs)
  {
    PairsWithinCapsIffFields(cs);
    KeysArePlain(cs);
    PairsReadBackIffWithinCaps(KVPairs(cs));
  }

  lemma {:induction false} StoreOf(values: Values, pairs: seq<Pair>, i: nat)
    requires i < |pairs| && forall j, k :: 0 <= j < k < |pairs| ==> pairs[j].0 != pairs[k].0
    ensures pairs[i].0 in Store(values, pairs) && Store(values, pairs)[pairs[i].0] == pairs[i].1
    decreases |pairs|
  {
    if i > 0 {
      StoreOf(values[pairs[0].0 := pairs[0].1], pairs[1..], i - 1);
    } else {
      StoreKeeps(values[pairs[0].0 := pairs[0].1], pairs[1..], pairs[0].0);
    }
  }

  lemma {:induction false} StoreKeeps(values: Values, pairs: seq<Pair>, key: string)
    requires key in values && forall j :: 0 <= j < |pairs| ==> pairs[j].0 != key
    ensures key in Store(values, pairs) && Store(values, pairs)[key] == values[key]
    decreases |pairs|
  {
    if pairs != [] {
      StoreKeeps(values[pairs[0].0 := pairs[0].1], pairs[1..], key);
    }
  }

  predicate Finds(values: Values, key: string, value: string) {
    key in values && values[key] == value
  }

  /** Within the caps, every field is found under its key, whatever was there before. */
  lemma FieldsAreFound(cs: ConnStringKV, before: Values)
    requires FieldsWithinCaps(cs)
    ensures var parsed := ParsePairs(PairsText(KVPairs(cs)));
            var values := Store(before, parsed.pairs);
            && parsed.error == None
            && Finds(values, "host", cs.host) && Finds(values, "database", cs.database)
            && Finds(values, "user", cs.user) && Finds(values, "password", cs.password)
            && Finds(values, "port", Decimal(cs.port))
            && Finds(values, "sslmode", if cs.sslMode == "" then "disable" else cs.sslMode)
            && Finds(values, "client_encoding", "UTF8")
  {
    ConnectionStringReadsBackIff(cs);
    var pairs := KVPairs(cs);
    assert forall j, k :: 0 <= j < k < |pairs| ==> pairs[j].0 != pairs[k].0;
    forall i | 0 <= i < 7 ensures Finds(Store(before, pairs), pairs[i].0, pairs[i].1) {
      StoreOf(before, pairs, i);
    }
    assert Finds(Store(before, pairs), pairs[0].0, pairs[0].1) && Finds(Store(before, pairs), pairs[1].0, pairs[1].1);
    assert Finds(Store(before, pairs), pairs[2].0, pairs[2].1) && Finds(Store(before, pairs), pairs[3].0, pairs[3].1);
    assert Finds(Store(before, pairs), pairs[4].0, pairs[4].1) && Finds(Store(before, pairs), pairs[5].0, pairs[5].1);
    assert Finds(Store(before, pairs), pairs[6].0, pairs[6].1);
  }

  lemma {:induction false} PlainIsNotEscaped(v: string, c: char, n: nat)
    requires c !in v
    ensures PutBackslash(v, c, n) == v
  {
    if v != "" {
      assert v[0] != c && forall d :: d in v[1..] ==> d in v;
      PlainIsNotEscaped(v[1..], c, n);
    }
  }

  predicate Plain(v: string) {
    '\\' !in v && '\'' !in v
  }

  /** The text for fields without quotes and backslashes. */
  lemma PlainText(cs: ConnStringKV)
    requires Plain(cs.host) && Plain(cs.database) && Plain(cs.user) && Plain(cs.password) && Plain(cs.sslMode)
    ensures PairsText(KVPairs(cs)) ==
            Join(["host='" + cs.host + "'", "database='" + cs.database + "'", "user='" + cs.user + "'",
                  "password='" + cs.password + "'", "port='" + Decimal(cs.port) + "'",
                  "sslmode='" + (if cs.sslMode == "" then "disable" else cs.sslMode) + "'",
                  "client_encoding='UTF8'"], ' ')
  {
    DecimalIsPlain(cs.port);
    var pairs := KVPairs(cs);
    forall i | 0 <= i < 7 ensures PairText(pairs[i]) == pairs[i].0 + "='" + pairs[i].1 + "'" {
      PlainIsNotEscaped(pairs[i].1, '\\', CAP);
      PlainIsNotEscaped(pairs[i].1, '\'', CAP);
    }
    assert PairText(pairs[0]) == "host" + "='" + cs.host + "'" && "host" + "='" == "host='";
    assert "database" + "='" == "database='" && "user" + "='" == "user='" && "password" + "='" == "password='";
    assert "port" + "='" == "port='" && "sslmode" + "='" == "sslmode='";
    assert "client_encoding" + "='" + "UTF8" + "'" == "client_encoding='UTF8'";
    assert PairTexts(pairs) == [PairText(pairs[0]), PairText(pairs[1]), PairText(pairs[2]), PairText(pairs[3]),
                                PairText(pairs[4]), PairText(pairs[5]), PairText(pairs[6])];
  }

  lemma DecimalIsPlain(n: int)
    ensures Plain(Decimal(n))
  {
    DigitsAreFaithful(if n < 0 then -n else n);
  }
}
