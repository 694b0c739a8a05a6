/** Normalising log field keys to snake case: the two passes of the code, and the one-pass
    definition of where separators stand in the result. */
module SnakeCase {
  import opened Common

  predicate IsUpper(c: char) {
    'A' <= c <= 'Z'
  }

  predicate IsLowerAlphaNum(c: char) {
    'a' <= c <= 'z' || '0' <= c <= '9'
  }

  predicate IsAlphaNum(c: char) {
    IsUpper(c) || IsLowerAlphaNum(c)
  }

  function Lower(c: char): char {
    if IsUpper(c) then (c as int - 'A' as int + 'a' as int) as char else c
  }

  // ---------- where separators belong ----------

  predicate UpperAt(s: string, q: int) {
    0 <= q < |s| && IsUpper(s[q])
  }

  /** A separator belongs before the letter or digit at `q`: something else stands before it, or a
      capital follows a small letter or digit, or a run of at least two capitals ends before it. */
  predicate Separates(s: string, q: nat)
    requires q < |s|
  {
    q > 0 &&
    (|| !IsAlphaNum(s[q - 1])
     || (IsUpper(s[q]) && !IsUpper(s[q - 1]))
     || (!IsUpper(s[q]) && UpperAt(s, q - 1) && UpperAt(s, q - 2)))
  }

  /** The snake case of `s` from position `q` on; `started` says that something stands before. */
  function Snake(s: string, q: nat, started: bool): string
    decreases |s| - q
  {
    if q >= |s| then ""
    else if IsAlphaNum(s[q]) then
      (if started && Separates(s, q) then "_" else "") + [Lower(s[q])] + Snake(s, q + 1, true)
    else Snake(s, q + 1, started)
  }

  function SnakeOf(s: string): string {
    Snake(s, 0, false)
  }

  // ---------- the two passes ----------

  /** The first pass writes a separator before the character at `q`. */
  predicate EmitsSeparator(s: string, q: nat)
    requires q < |s|
  {
    if IsUpper(s[q]) then !UpperAt(s, q - 1) else UpperAt(s, q - 1) && UpperAt(s, q - 2)
  }

  /** What the first pass writes for the character at `q`. */
  function Emit(s: string, q: nat): string
    requires q < |s|
  {
    (if EmitsSeparator(s, q) then "_" else "") + [if IsAlphaNum(s[q]) then Lower(s[q]) else '_']
  }

  function FirstPass(s: string, q: nat): string
    decreases |s| - q
  {
    if q >= |s| then "" else Emit(s, q) + FirstPass(s, q + 1)
  }

  /** `strings.Trim` for separators. */
  function TrimLeft(s: string): (r: string)
    ensures |r| <= |s| && (r != "" ==> r[0] != '_')
  {
    if s != "" && s[0] == '_' then TrimLeft(s[1..]) else s
  }

  function TrimRight(s: string): (r: string)
    ensures |r| <= |s| && r == s[..|r|] && (r != "" ==> r[|r| - 1] != '_')
    ensures forall k :: |r| <= k < |s| ==> s[k] == '_'
  {
    if s != "" && s[|s| - 1] == '_' then TrimRight(s[..|s| - 1]) else s
  }

  /** The second pass; `repeating` says that a separator was written last. */
  function SecondPass(s: string, repeating: bool): string {
    if s == "" then ""
    else if s[0] == '_' && repeating then SecondPass(s[1..], true)
    else if s[0] == '_' || !IsLowerAlphaNum(s[0]) then "_" + SecondPass(s[1..], true)
    else [s[0]] + SecondPass(s[1..], false)
  }

  // ---------- the two passes compute the definition ----------

  /** Words of `s` joined by single separators. */
  function Words(s: string, started: bool, pending: bool): string {
    if s == "" then ""
    else if s[0] == '_' then Words(s[1..], started, true)
    else (if started && pending then "_" else "") + [s[0]] + Words(s[1..], true, false)
  }

  predicate OnlySnakeChars(s: string) {
    forall k :: 0 <= k < |s| ==> s[k] == '_' || IsLowerAlphaNum(s[k])
  }

  lemma {:induction false} WordsSkipLeft(s: string, pending: bool)
    ensures Words(s, false, pending) == Words(TrimLeft(s), false, false)
  {
    if s != "" && s[0] == '_' {
      WordsSkipLeft(s[1..], true);
    }
  }

  lemma {:induction false} WordsSkipRight(s: string, k: nat, started: bool, pending: bool)
    requires k <= |s| && forall j :: k <= j < |s| ==> s[j] == '_'
    ensures Words(s, started, pending) == Words(s[..k], started, pending)
  {
    if s != "" {
      if k == 0 {
        WordsSkipRight(s[1..], 0, started, true);
      } else {
        assert s[..k][1..] == s[1..][..k - 1];
        if s[0] == '_' {
          WordsSkipRight(s[1..], k - 1, started, true);
        } else {
          WordsSkipRight(s[1..], k - 1, true, false);
        }
      }
    }
  }

  /** On a text that does not end in a separator the second pass joins its words. */
  lemma {:induction false} SecondPassJoins(s: string)
    requires OnlySnakeChars(s) && (s != "" ==> s[|s| - 1] != '_')
    ensures SecondPass(s, false) == Words(s, true, false)
    ensures s != "" ==> "_" + SecondPass(s, true) == Words(s, true, true)
  {
    if s != "" {
      SecondPassJoins(s[1..]);
      assert s[0] != '_' ==> "_" + ([s[0]] + SecondPass(s[1..], false)) == "_" + [s[0]] + SecondPass(s[1..], false);
    }
  }

  lemma FirstWordStarts(s: string)
    requires s == "" || s[0] != '_'
    ensures Words(s, false, false) == Words(s, true, false)
  {}

  lemma NormalisedIsWords(s: string)
    requires OnlySnakeChars(s)
    ensures SecondPass(TrimRight(TrimLeft(s)), false) == Words(s, false, false)
  {
    var left := TrimLeft(s);
    TrimLeftKeepsChars(s);
    WordsSkipLeft(s, false);
    WordsSkipRight(left, |TrimRight(left)|, false, false);
    FirstWordStarts(TrimRight(left));
    SecondPassJoins(TrimRight(left));
  }

  lemma {:induction false} TrimLeftKeepsChars(s: string)
    requires OnlySnakeChars(s)
    ensures OnlySnakeChars(TrimLeft(s))
  {
    if s != "" && s[0] == '_' {
      TrimLeftKeepsChars(s[1..]);
    }
  }

  lemma {:induction false} FirstPassChars(s: string, q: nat)
    ensures OnlySnakeChars(FirstPass(s, q))
    decreases |s| - q
  {
    if q < |s| {
      FirstPassChars(s, q + 1);
    }
  }

  lemma WordsSeparator(t: string, started: bool, pending: bool)
    ensures Words("_" + t, started, pending) == Words(t, started, true)
  {
    assert ("_" + t)[1..] == t;
  }

  lemma WordsLetter(c: char, t: string, started: bool, pending: bool)
    requires c != '_'
    ensures Words([c] + t, started, pending) == (if started && pending then "_" else "") + [c] + Words(t, true, false)
  {
    assert ([c] + t)[1..] == t;
  }

  lemma WordsUnit(separator: bool, c: char, t: string, started: bool, pending: bool)
    ensures var s := (if separator then "_" else "") + [c] + t;
            Words(s, started, pending) ==
            if c == '_' then Words(t, started, true)
            else (if started && (pending || separator) then "_" else "") + [c] + Words(t, true, false)
  {
    var u := [c] + t;
    if separator {
      assert "_" + [c] + t == "_" + u;
      WordsSeparator(u, started, pending);
    } else {
      assert "" + [c] + t == u;
    }
    if c == '_' {
      WordsSeparator(t, started, pending || separator);
    } else {
      WordsLetter(c, t, started, pending || separator);
    }
  }

  /** The words of the first pass are the definition, from any position on. */
  lemma {:induction false} FirstPassWords(s: string, q: nat, started: bool, pending: bool)
    requires q <= |s|
    requires started ==> q > 0 && pending == !IsAlphaNum(s[q - 1])
    ensures Words(FirstPass(s, q), started, pending) == Snake(s, q, started)
    decreases |s| - q
  {
    if q < |s| {
      var c := if IsAlphaNum(s[q]) then Lower(s[q]) else '_';
      WordsUnit(EmitsSeparator(s, q), c, FirstPass(s, q + 1), started, pending);
      if IsAlphaNum(s[q]) {
        FirstPassWords(s, q + 1, true, false);
        assert started ==> (pending || EmitsSeparator(s, q)) == Separates(s, q);
      } else {
        FirstPassWords(s, q + 1, started, true);
      }
    }
  }

  lemma TwoPassesAreSnake(s: string)
    ensures SecondPass(TrimRight(TrimLeft(FirstPass(s, 0))), false) == SnakeOf(s)
  {
    FirstPassChars(s, 0);
    NormalisedIsWords(FirstPass(s, 0));
    FirstPassWords(s, 0, false, false);
  }

  /** The first loop of `toSnakeCase`. */
  method Spread(s: string) returns (buf: string)
    ensures buf == FirstPass(s, 0)
  {
    buf := "";
    var capitalSequence := false;
    var i := 0;
    while i < |s|
      invariant 0 <= i <= |s|
      invariant FirstPass(s, 0) == buf + FirstPass(s, i)
      invariant capitalSequence == (UpperAt(s, i - 1) && UpperAt(s, i - 2))
      invariant i > 0 ==> |buf| > 0
    {
      ghost var before := buf;
      var r := s[i];
      if IsUpper(r) {
        if |buf| > 0 && i > 0 && IsUpper(s[i - 1]) {
          capitalSequence := true;
        }
        if !capitalSequence {
          buf := buf + "_";
        }
        buf := buf + [Lower(r)];
      } else if IsLowerAlphaNum(r) {
        if capitalSequence {
          buf := buf + "_";
        }
        capitalSequence := false;
        buf := buf + [r];
      } else {
        if capitalSequence {
          buf := buf + "_";
        }
        capitalSequence := false;
        buf := buf + "_";
      }
      assert buf == before + Emit(s, i);
      Associative(before, Emit(s, i), FirstPass(s, i + 1));
      i := i + 1;
    }
    assert buf + "" == buf;
  }

  /** The second loop of `toSnakeCase`. */
  method Normalise(s: string) returns (buf: string)
    ensures buf == SecondPass(s, false)
  {
    buf := "";
    var repeatingSeparator := false;
    var i := 0;
    assert s[0..] == s;
    while i < |s|
      invariant 0 <= i <= |s|
      invariant SecondPass(s, false) == buf + SecondPass(s[i..], repeatingSeparator)
    {
      var r := s[i];
      assert s[i..][1..] == s[i + 1..];
      i := i + 1;
      if r == '_' && repeatingSeparator {
        continue;
      }
      if r == '_' {
        Associative(buf, [r], SecondPass(s[i..], true));
        buf := buf + [r];
        repeatingSeparator := true;
        continue;
      }
      if !IsLowerAlphaNum(r) {
        Associative(buf, "_", SecondPass(s[i..], true));
        buf := buf + "_";
        repeatingSeparator := true;
        continue;
      }
      Associative(buf, [r], SecondPass(s[i..], false));
      buf := buf + [r];
      repeatingSeparator := false;
    }
    assert s[i..] == "" && buf + "" == buf;
  }

  /** `toSnakeCase`. */
  method ToSnakeCase(s: string) returns (out: string)
    ensures out == SnakeOf(s)
  {
    var buf := Spread(s);
    TwoPassesAreSnake(s);
    out := Normalise(TrimRight(TrimLeft(buf)));
  }

  // ---------- what the result looks like ----------

  /** Words of small letters and digits, joined by single separators. */
  predicate IsSnake(s: string) {
    && OnlySnakeChars(s)
    && (s != "" ==> s[0] != '_' && s[|s| - 1] != '_')
    && (forall k :: 0 <= k < |s| - 1 ==> s[k] != '_' || s[k + 1] != '_')
  }

  /** The letters and digits of `s`, in small letters. */
  function Letters(s: string): string {
    if s == "" then "" else (if IsAlphaNum(s[0]) then [Lower(s[0])] else "") + Letters(s[1..])
  }

  /** A tail of snake case, behind a word. */
  predicate IsTail(s: string) {
    s == "" || IsSnake(s) || (s[0] == '_' && s[1..] != "" && IsSnake(s[1..]))
  }

  lemma ExtendTail(c: char, tail: string)
    requires IsLowerAlphaNum(c) && IsTail(tail)
    ensures IsSnake([c] + tail) && IsTail("_" + [c] + tail)
  {
    var s := [c] + tail;
    assert s[1..] == tail;
    assert tail != "" && tail[0] == '_' ==> tail == "_" + tail[1..];
    assert ("_" + [c] + tail)[1..] == s;
  }

  lemma {:induction false} SnakeShape(s: string, q: nat, started: bool)
    ensures IsTail(Snake(s, q, started))
    ensures !started ==> IsSnake(Snake(s, q, started))
    decreases |s| - q
  {
    if q < |s| {
      if IsAlphaNum(s[q]) {
        SnakeShape(s, q + 1, true);
        ExtendTail(Lower(s[q]), Snake(s, q + 1, true));
        assert "" + [Lower(s[q])] == [Lower(s[q])];
      } else {
        SnakeShape(s, q + 1, started);
      }
    }
  }

  lemma LettersCons(c: char, t: string)
    ensures Letters([c] + t) == (if IsAlphaNum(c) then [Lower(c)] else "") + Letters(t)
  {
    assert ([c] + t)[1..] == t;
  }

  lemma {:induction false} SnakeLetters(s: string, q: nat, started: bool)
    requires q <= |s|
    ensures Letters(Snake(s, q, started)) == Letters(s[q..])
    decreases |s| - q
  {
    if q < |s| {
      assert s[q..] == [s[q]] + s[q + 1..];
      LettersCons(s[q], s[q + 1..]);
      if IsAlphaNum(s[q]) {
        SnakeLetters(s, q + 1, true);
        var tail := Snake(s, q + 1, true);
        LettersCons(Lower(s[q]), tail);
        LettersCons('_', [Lower(s[q])] + tail);
        assert "_" + [Lower(s[q])] + tail == ['_'] + ([Lower(s[q])] + tail);
        assert "" + [Lower(s[q])] + tail == [Lower(s[q])] + tail;
      } else {
        SnakeLetters(s, q + 1, started);
      }
    }
  }

  /** From a letter or digit on, snake case is left as it is. */
  lemma {:induction false} SnakeFixed(s: string, q: nat)
    requires IsSnake(s) && q <= |s|
    ensures Snake(s, q, q > 0) == (if 0 < q < |s| && s[q - 1] == '_' then "_" else "") + s[q..]
    decreases |s| - q
  {
    if q < |s| {
      SnakeFixed(s, q + 1);
      assert s[q..] == [s[q]] + s[q + 1..];
      if s[q] == '_' {
        assert 0 < q < |s| - 1 && s[q - 1] != '_';
        assert "" + s[q..] == s[q..] && Snake(s, q, true) == Snake(s, q + 1, true);
      } else {
        assert q > 0 ==> (Separates(s, q) <==> s[q - 1] == '_');
        var mark := if q > 0 && s[q - 1] == '_' then "_" else "";
        assert "" + s[q + 1..] == s[q + 1..];
        Associative(mark, [s[q]], s[q + 1..]);
      }
    }
  }

  /** The result is in snake case and keeps the letters and digits in order; a key that is in
      snake case is left untouched, so normalising twice changes nothing. */
  lemma SnakeCaseIsNormalForm(s: string)
    ensures IsSnake(SnakeOf(s))
    ensures Letters(SnakeOf(s)) == Letters(s)
    ensures IsSnake(s) ==> SnakeOf(s) == s
    ensures SnakeOf(SnakeOf(s)) == SnakeOf(s)
  {
    SnakeShape(s, 0, false);
    SnakeLetters(s, 0, false);
    assert s[0..] == s;
    if IsSnake(s) {
      SnakeFixed(s, 0);
    }
    SnakeFixed(SnakeOf(s), 0);
    assert SnakeOf(s)[0..] == SnakeOf(s);
  }

  // ---------- words in the middle of a key ----------

  const CAPITALS := "ABCDEFGHIJKLMNOPQRSTUVWXYZ"
  const SMALL_LETTERS := "abcdefghijklmnopqrstuvwxyz"

  const DIGITS := "0123456789"

  /** A capital becomes the small letter at its place in the alphabet. */
  lemma LowerIsSmallLetter(i: nat)
    requires i < 26
    ensures IsUpper(CAPITALS[i]) && Lower(CAPITALS[i]) == SMALL_LETTERS[i]
    ensures IsLowerAlphaNum(SMALL_LETTERS[i]) && Lower(SMALL_LETTERS[i]) == SMALL_LETTERS[i]
    ensures i < 10 ==> IsLowerAlphaNum(DIGITS[i]) && Lower(DIGITS[i]) == DIGITS[i]
  {}

  function LowerAll(w: string): string {
    seq(|w|, k requires 0 <= k < |w| => Lower(w[k]))
  }

  predicate AllUpper(w: string) {
    forall k :: 0 <= k < |w| ==> IsUpper(w[k])
  }

  predicate AllSmall(w: string) {
    forall k :: 0 <= k < |w| ==> IsLowerAlphaNum(w[k])
  }

  /** Capitals and the small letters and digits behind them. */
  datatype Run = Run(capitals: string, smalls: string)

  /** Only the last run may end in a capital. */
  predicate ValidRuns(runs: seq<Run>) {
    forall k :: 0 <= k < |runs| ==>
      && runs[k].capitals != "" && AllUpper(runs[k].capitals) && AllSmall(runs[k].smalls)
      && (k < |runs| - 1 ==> runs[k].smalls != "")
  }

  function RunsText(runs: seq<Run>): string {
    if runs == [] then "" else runs[0].capitals + runs[0].smalls + RunsText(runs[1..])
  }

  /** One capital starts a word; several are a word of their own. */
  function WordsOf(r: Run): seq<string> {
    if |r.capitals| == 1 then [LowerAll(r.capitals) + r.smalls]
    else [LowerAll(r.capitals)] + (if r.smalls == "" then [] else [r.smalls])
  }

  /** Words, each behind a separator. */
  function Separated(words: seq<string>): string {
    if words == [] then "" else "_" + words[0] + Separated(words[1..])
  }

  function AllWords(runs: seq<Run>): seq<string> {
    if runs == [] then [] else WordsOf(runs[0]) + AllWords(runs[1..])
  }

  lemma {:induction false} SnakeOfSmalls(s: string, q: nat, m: nat)
    requires 0 < q && q + m <= |s| && AllSmall(s[q..q + m]) && IsLowerAlphaNum(s[q - 1])
    ensures Snake(s, q, true) == s[q..q + m] + Snake(s, q + m, true)
    decreases m
  {
    if m == 0 {
      assert s[q..q] == "";
    } else {
      assert s[q..q + m][0] == s[q] && s[q..q + m][1..] == s[q + 1..q + 1 + (m - 1)];
      SnakeOfSmalls(s, q + 1, m - 1);
      assert s[q..q + m] == [s[q]] + s[q + 1..q + 1 + (m - 1)];
      assert "" + [s[q]] == [s[q]];
    }
  }

  lemma {:induction false} SnakeOfCapitals(s: string, q: nat, m: nat)
    requires 0 < q && q + m <= |s| && AllUpper(s[q..q + m]) && IsUpper(s[q - 1])
    ensures Snake(s, q, true) == LowerAll(s[q..q + m]) + Snake(s, q + m, true)
    decreases m
  {
    if m == 0 {
      assert s[q..q] == "" && LowerAll("") == "";
    } else {
      assert s[q..q + m][0] == s[q] && s[q..q + m][1..] == s[q + 1..q + 1 + (m - 1)];
      SnakeOfCapitals(s, q + 1, m - 1);
      assert LowerAll(s[q..q + m]) == [Lower(s[q])] + LowerAll(s[q + 1..q + 1 + (m - 1)]);
      assert "" + [Lower(s[q])] == [Lower(s[q])];
    }
  }

  /** The small letters behind capitals start a word when there are several capitals. */
  lemma SmallsBehindCapitals(s: string, p: nat, k: nat)
    requires 0 < p && p + k <= |s| && AllSmall(s[p..p + k]) && IsUpper(s[p - 1])
    ensures Snake(s, p, true) ==
            (if k == 0 then "" else (if UpperAt(s, p - 2) then "_" else "") + s[p..p + k]) + Snake(s, p + k, true)
  {
    if k == 0 {
      assert "" + Snake(s, p, true) == Snake(s, p, true);
    } else {
      assert s[p..p + k][0] == s[p] && s[p..p + k][1..] == s[p + 1..p + 1 + (k - 1)];
      SnakeOfSmalls(s, p + 1, k - 1);
      var mark := if UpperAt(s, p - 2) then "_" else "";
      assert s[p..p + k] == [s[p]] + s[p + 1..p + 1 + (k - 1)];
      Associative(mark, [s[p]], s[p + 1..p + 1 + (k - 1)]);
      Associative(mark + [s[p]], s[p + 1..p + 1 + (k - 1)], Snake(s, p + k, true));
    }
  }

  /** One run as it is written: lower-cased, with a separator behind several capitals. */
  function Written(r: Run): string {
    LowerAll(r.capitals) + (if r.smalls == "" then "" else (if |r.capitals| > 1 then "_" else "") + r.smalls)
  }

  lemma CapitalsOfRun(s: string, q: nat, m: nat)
    requires 0 < m && q + m <= |s| && AllUpper(s[q..q + m])
    requires q > 0 ==> IsLowerAlphaNum(s[q - 1])
    ensures Snake(s, q, q > 0) == (if q > 0 then "_" else "") + (LowerAll(s[q..q + m]) + Snake(s, q + m, true))
    ensures IsUpper(s[q + m - 1]) && (UpperAt(s, q + m - 2) <==> m > 1)
  {
    var caps, rest := s[q..q + m], Snake(s, q + 1, true);
    assert caps[0] == s[q] && caps[1..] == s[q + 1..q + 1 + (m - 1)];
    SnakeOfCapitals(s, q + 1, m - 1);
    assert LowerAll(caps) == [Lower(s[q])] + LowerAll(caps[1..]);
    Associative(if q > 0 then "_" else "", [Lower(s[q])], rest);
    Associative([Lower(s[q])], LowerAll(caps[1..]), Snake(s, q + m, true));
    assert caps[m - 1] == s[q + m - 1] && (m > 1 ==> caps[m - 2] == s[q + m - 2]);
  }

  lemma RunSlices(s: string, q: nat, r: Run, rest: string)
    requires q <= |s| && s[q..] == r.capitals + r.smalls + rest
    ensures var m, k := |r.capitals|, |r.smalls|;
            && q + m + k + |rest| == |s| && s[q + m + k..] == rest
            && s[q..q + m] == r.capitals && s[q + m..q + m + k] == r.smalls
            && (k > 0 ==> s[q + m + k - 1] == r.smalls[k - 1])
  {
    var t, m, k := s[q..], |r.capitals|, |r.smalls|;
    assert s[q..q + m] == t[..m] && s[q + m..q + m + k] == t[m..m + k] && s[q + m + k..] == t[m + k..];
    assert k > 0 ==> t[m + k - 1] == s[q + m + k - 1];
  }

  lemma SnakeOfRun(s: string, q: nat, r: Run)
    requires var m, k := |r.capitals|, |r.smalls|;
             && 0 < m && q + m + k <= |s| && s[q..q + m] == r.capitals && s[q + m..q + m + k] == r.smalls
    requires AllUpper(r.capitals) && AllSmall(r.smalls) && (q > 0 ==> IsLowerAlphaNum(s[q - 1]))
    ensures var p := q + |r.capitals| + |r.smalls|;
            Snake(s, q, q > 0) == (if q > 0 then "_" else "") + (Written(r) + Snake(s, p, true))
  {
    var m, k := |r.capitals|, |r.smalls|;
    CapitalsOfRun(s, q, m);
    SmallsBehindCapitals(s, q + m, k);
    hide Snake, LowerAll, AllUpper, AllSmall, UpperAt, IsUpper, IsLowerAlphaNum;
    var sep := if m > 1 then "_" else "";
    Associative(LowerAll(r.capitals), if k == 0 then "" else sep + r.smalls, Snake(s, q + m + k, true));
  }

  /** The first of several runs. */
  lemma SnakeOfFirstRun(s: string, q: nat, runs: seq<Run>) returns (p: nat)
    requires q <= |s| && s[q..] == RunsText(runs) && ValidRuns(runs) && runs != []
    requires q > 0 ==> IsLowerAlphaNum(s[q - 1])
    ensures q < p <= |s| && s[p..] == RunsText(runs[1..]) && ValidRuns(runs[1..])
    ensures runs[1..] != [] ==> IsLowerAlphaNum(s[p - 1])
    ensures Snake(s, q, q > 0) == (if q > 0 then "_" else "") + (Written(runs[0]) + Snake(s, p, true))
  {
    var r := runs[0];
    p := q + |r.capitals| + |r.smalls|;
    RunSlices(s, q, r, RunsText(runs[1..]));
    hide Snake;
    SnakeOfRun(s, q, r);
    assert forall j :: 0 <= j < |runs[1..]| ==> runs[1..][j] == runs[j + 1];
  }

  lemma {:induction false} SeparatedAppend(a: seq<string>, b: seq<string>)
    ensures Separated(a + b) == Separated(a) + Separated(b)
  {
    if a == [] {
      assert a + b == b;
    } else {
      assert (a + b)[1..] == a[1..] + b;
      SeparatedAppend(a[1..], b);
      Associative("_" + a[0], Separated(a[1..]), Separated(b));
    }
  }

  lemma SeparatedOne(w: string)
    ensures Separated([w]) == "_" + w
  {
    assert [w][1..] == [] && "_" + w + "" == "_" + w;
  }

  lemma RunIsItsWords(r: Run)
    requires r.capitals != ""
    ensures Separated(WordsOf(r)) == "_" + Written(r)
  {
    var lower := LowerAll(r.capitals);
    if |r.capitals| == 1 {
      SeparatedOne(lower + r.smalls);
      assert "" + r.smalls == r.smalls && lower + "" == lower;
    } else if r.smalls == "" {
      SeparatedOne(lower);
      assert [lower] + [] == [lower] && lower + "" == lower;
    } else {
      SeparatedAppend([lower], [r.smalls]);
      SeparatedOne(lower);
      SeparatedOne(r.smalls);
      Associative("_", lower, "_" + r.smalls);
    }
  }

  lemma Mark(first: bool, w: string, tail: string)
    ensures (if first then "_" else "") + ((if !first then "_" else "") + (w + tail)) == "_" + w + tail
  {}

  lemma EndOfKey(s: string)
    ensures Snake(s, |s|, true) == "" && Separated([]) == ""
  {}

  lemma {:induction false} SnakeOfRuns(s: string, q: nat, runs: seq<Run>)
    requires q <= |s| && s[q..] == RunsText(runs) && ValidRuns(runs) && runs != []
    requires q > 0 ==> IsLowerAlphaNum(s[q - 1])
    ensures (if q == 0 then "_" else "") + Snake(s, q, q > 0) == Separated(AllWords(runs))
    decreases |runs|
  {
    var r, more := runs[0], runs[1..];
    var p := SnakeOfFirstRun(s, q, runs);
    assert r.capitals != "" && (more == [] ==> RunsText(more) == "" && p == |s|);
    hide Snake, Written, Separated, WordsOf, RunsText, ValidRuns;
    RunIsItsWords(r);
    SeparatedAppend(WordsOf(r), AllWords(more));
    Mark(q == 0, Written(r), Snake(s, p, true));
    if more == [] {
      EndOfKey(s);
    } else {
      SnakeOfRuns(s, p, more);
      assert "" + Snake(s, p, true) == Snake(s, p, true);
    }
  }

  lemma {:induction false} SeparatedIsJoined(words: seq<string>)
    requires words != []
    ensures Separated(words) == "_" + Join(words, '_')
    decreases |words|
  {
    if |words| > 1 {
      SeparatedIsJoined(words[1..]);
      assert "_" + words[0] + ("_" + Join(words[1..], '_')) == "_" + (words[0] + ['_'] + Join(words[1..], '_'));
    } else {
      assert words == [words[0]];
      SeparatedOne(words[0]);
    }
  }

  function KeyWords(first: string, runs: seq<Run>): seq<string> {
    (if first == "" then [] else [first]) + AllWords(runs)
  }

  lemma SnakeOfFirst(s: string, first: string, rest: string)
    requires s == first + rest && first != "" && AllSmall(first)
    ensures Snake(s, 0, false) == first + Snake(s, |first|, true) && s[|first|..] == rest && IsLowerAlphaNum(s[|first| - 1])
  {
    var q := |first|;
    assert s[1..1 + (q - 1)] == first[1..] && first == [first[0]] + first[1..];
    SnakeOfSmalls(s, 1, q - 1);
    Associative([first[0]], first[1..], Snake(s, q, true));
  }

  /** Where words end in a key of letters and digits only: every capital behind a small letter or
      digit starts a word, and what follows several capitals is a word of its own. So a key in camel
      case is cut at its capitals. */
  lemma CamelCaseWords(first: string, runs: seq<Run>)
    requires AllSmall(first) && ValidRuns(runs) && KeyWords(first, runs) != []
    ensures SnakeOf(first + RunsText(runs)) == Join(KeyWords(first, runs), '_')
  {
    var s, q := first + RunsText(runs), |first|;
    SeparatedIsJoined(KeyWords(first, runs));
    if first == "" {
      assert s[0..] == RunsText(runs) && KeyWords(first, runs) == AllWords(runs);
      SnakeOfRuns(s, 0, runs);
    } else {
      SnakeOfFirst(s, first, RunsText(runs));
      SeparatedAppend([first], AllWords(runs));
      SeparatedOne(first);
      if runs != [] {
        SnakeOfRuns(s, q, runs);
        assert "" + Snake(s, q, true) == Snake(s, q, true);
      }
      Associative("_", first, Snake(s, q, true));
    }
    var joined := Join(KeyWords(first, runs), '_');
    assert ("_" + SnakeOf(s))[1..] == SnakeOf(s) && ("_" + joined)[1..] == joined;
  }

  // ---------- other characters ----------

  predicate NoAlphaNum(w: string) {
    forall k :: 0 <= k < |w| ==> !IsAlphaNum(w[k])
  }

  /** What is written for a beginning of a key does not depend on what follows it. */
  lemma {:induction false} SnakeOfPrefix(a: string, rest: string, q: nat, started: bool)
    requires q <= |a|
    ensures Snake(a + rest, q, started) ==
            Snake(a, q, started) + Snake(a + rest, |a|, started || Snake(a, q, started) != "")
    decreases |a| - q
  {
    var s := a + rest;
    if q == |a| {
      assert "" + Snake(s, q, started) == Snake(s, q, started);
    } else {
      assert s[q] == a[q] && (q > 0 ==> s[q - 1] == a[q - 1]) && (q > 1 ==> s[q - 2] == a[q - 2]);
      if IsAlphaNum(a[q]) {
        SnakeOfPrefix(a, rest, q + 1, true);
        var unit := (if started && Separates(a, q) then "_" else "") + [Lower(a[q])];
        Associative(unit, Snake(a, q + 1, true), Snake(s, |a|, true));
      } else {
        SnakeOfPrefix(a, rest, q + 1, started);
      }
    }
  }

  lemma {:induction false} SnakeOfOthers(s: string, q: nat, m: nat, started: bool)
    requires q + m <= |s| && NoAlphaNum(s[q..q + m])
    ensures Snake(s, q, started) == Snake(s, q + m, started)
    decreases m
  {
    if m > 0 {
      assert s[q..q + m][0] == s[q] && s[q..q + m][1..] == s[q + 1..q + 1 + (m - 1)];
      SnakeOfOthers(s, q + 1, m - 1, started);
    }
  }

  /** Behind another character the rest of a key is written as if it stood alone. */
  lemma {:induction false} SnakeOfSuffix(front: string, b: string, j: nat, started: bool)
    requires j <= |b| && front != "" && !IsAlphaNum(front[|front| - 1])
    requires if started then j > 0 else NoAlphaNum(b[..j])
    ensures var s, inner := front + b, Snake(b, j, started);
            Snake(s, |front| + j, true) == (if started || inner == "" then "" else "_") + inner
    ensures !started ==> Snake(front + b, |front| + j, false) == Snake(b, j, false)
    decreases |b| - j
  {
    var s, q := front + b, |front| + j;
    if j < |b| {
      assert s[q] == b[j] && (j > 0 ==> s[q - 1] == b[j - 1]) && (j > 1 ==> s[q - 2] == b[j - 2]);
      if IsAlphaNum(b[j]) {
        SnakeOfSuffix(front, b, j + 1, true);
        var tail := Snake(b, j + 1, true);
        assert "" + tail == tail && "" + [Lower(b[j])] + tail == [Lower(b[j])] + tail;
        assert "_" + ([Lower(b[j])] + tail) == "_" + [Lower(b[j])] + tail;
        assert !started && j > 0 ==> b[..j][j - 1] == b[j - 1];
        assert started ==> "" + Snake(b, j, started) == Snake(b, j, started);
      } else {
        assert !started ==> NoAlphaNum(b[..j + 1]);
        SnakeOfSuffix(front, b, j + 1, started);
      }
    }
  }

  /** Other characters end a word, however many there are; those at the ends are dropped. */
  lemma OthersEndWords(a: string, others: string, b: string)
    requires others != "" && NoAlphaNum(others)
    ensures SnakeOf(a + others + b) ==
            SnakeOf(a) + (if SnakeOf(a) == "" || SnakeOf(b) == "" then "" else "_") + SnakeOf(b)
  {
    var s, front, m := a + others + b, a + others, |others|;
    Associative(a, others, b);
    SnakeOfPrefix(a, others + b, 0, false);
    assert s[|a|..|a| + m] == others;
    var started := SnakeOf(a) != "";
    SnakeOfOthers(s, |a|, m, started);
    SnakeOfSuffix(front, b, 0, false);
    Associative(SnakeOf(a), if started && SnakeOf(b) != "" then "_" else "", SnakeOf(b));
  }
}
