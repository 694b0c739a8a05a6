/** Why the array parser refuses a text: the offset in an error is the first character that cannot
    follow what stands before it. */
module ArrayErrors {
  import opened Common
  import opened ArrayText
  import opened ArrayGrammar
  import opened ArrayShapes

  predicate IsUnexpected(r: Outcome) {
    r.Err? && r.error.Unexpected?
  }

  // ---------- what is read does not depend on what follows ----------

  lemma {:induction false} QuotedPrefix(t: string, elem: string, escape: bool, y: string)
    requires ScanQuoted(t, elem, escape).Some?
    ensures var (v, r) := ScanQuoted(t, elem, escape).value;
            && r == t[|t| - |r|..]
            && ScanQuoted(t[..|t| - |r|] + y, elem, escape) == Some((v, y))
  {
    var (v, r) := ScanQuoted(t, elem, escape).value;
    var head := t[..|t| - |r|] + y;
    assert head[0] == t[0];
    if !escape && t[0] == '"' {
      assert head[1..] == y;
    } else {
      assert head[1..] == t[1..][..|t[1..]| - |r|] + y;
      if escape {
        QuotedPrefix(t[1..], elem + [t[0]], false, y);
      } else if t[0] == '\\' {
        QuotedPrefix(t[1..], elem, true, y);
      } else {
        QuotedPrefix(t[1..], elem + [t[0]], false, y);
      }
    }
  }

  /** The element that `t` starts with, and its length; `None` when there is no whole one. */
  function OneElement(t: string): (r: Option<(Element, nat)>)
    ensures r.Some? ==> 0 < r.value.1 <= |t|
    ensures r.Some? && t[0] != '"' ==> r.value.1 < |t| && EndsElement(t[r.value.1])
  {
    if t == "" || t[0] == '{' then None
    else if t[0] == '"' then
      match ScanQuoted(t[1..], "", false)
      case None => None
      case Some((elem, rest)) => Some((Some(elem), |t| - |rest|))
    else if 0 < RawLength(t) < |t| then Some((RawElement(t[..RawLength(t)]), RawLength(t)))
    else None
  }

  /** Reading an element ends behind it, or fails at its first character. */
  lemma {:induction false} ReadsOneElement(n: nat, s: string, depth: nat, dims: seq<nat>, elems: seq<Element>)
    requires |s| <= n && 0 < depth && Counted(depth, dims) && (s != "" ==> s[0] != '{')
    ensures match OneElement(s)
            case Some((e, k)) =>
              AtElement(n, s, depth, dims, elems) == AtClosing(n, s[k..], depth, dims, elems + [e])
            case None =>
              AtElement(n, s, depth, dims, elems) ==
              if s != "" && s[0] != '"' && RawLength(s) == 0 then Err(Unexpected(n - |s|)) else Err(ExpectedClose(n))
  {
    EndsTooEarly(n, depth, dims, elems);
    if s != "" && s[0] == '"' && ScanQuoted(s[1..], "", false).Some? {
      QuotedPrefix(s[1..], "", false, "");
    }
  }

  /** The element that is read depends on nothing behind the character that ends it. */
  lemma SameElement(t: string, y: string)
    requires OneElement(t).Some?
    requires var k := OneElement(t).value.1; if y == "" then t[0] == '"' else k < |t| ==> y[0] == t[k]
    ensures OneElement(t[..OneElement(t).value.1] + y) == OneElement(t)
    ensures (t[..OneElement(t).value.1] + y)[OneElement(t).value.1..] == y
  {
    var (e, k) := OneElement(t).value;
    var u := t[..k] + y;
    assert u[0] == t[0] && u[k..] == y;
    if t[0] == '"' {
      QuotedPrefix(t[1..], "", false, y);
      assert u[1..] == t[1..][..k - 1] + y;
    } else {
      assert forall j :: 0 <= j <= k ==> u[j] == t[j];
      assert RawLength(u) == k && u[..k] == t[..k];
    }
  }

  // ---------- an error stays when the text goes on ----------

  lemma {:induction false} ElementErrorStays(n: nat, s: string, x: string, depth: nat, dims: seq<nat>, elems: seq<Element>)
    requires |s| <= n && 0 < depth && Counted(depth, dims) && IsUnexpected(AtElement(n, s, depth, dims, elems))
    ensures AtElement(n + |x|, s + x, depth, dims, elems) == AtElement(n, s, depth, dims, elems)
    decreases |s|, 1
  {
    var t := s + x;
    if s != "" && s[0] == '{' {
      assert t[0] == s[0] && t[1..] == s[1..] + x;
      if depth < |dims| {
        ElementErrorStays(n, s[1..], x, depth + 1, dims[depth := 0], elems);
      }
    } else {
      hide AtElement, AtClosing, AtEnd, ScanQuoted;
      ReadsOneElement(n, s, depth, dims, elems);
      ReadsOneElement(n + |x|, t, depth, dims, elems);
      assert t[0] == s[0];
      if OneElement(s).Some? {
        var (e, k) := OneElement(s).value;
        ClosingErrorStays(n, s[k..], x, depth, dims, elems + [e]);
        EndIsNoError(n, depth, dims, elems + [e]);
        assert t == s[..k] + (s[k..] + x);
        SameElement(s, s[k..] + x);
      }
    }
  }

  lemma EndIsNoError(n: nat, depth: nat, dims: seq<nat>, elems: seq<Element>)
    requires Counted(depth, dims)
    ensures !IsUnexpected(AtClosing(n, "", depth, dims, elems))
    ensures 0 < depth ==> !IsUnexpected(AtElement(n, "", depth, dims, elems))
  {
    assert AtClosing(n, "", depth, dims, elems) == AtEnd(n, depth, dims, elems);
  }

  lemma {:induction false} ClosingErrorStays(n: nat, s: string, x: string, depth: nat, dims: seq<nat>, elems: seq<Element>)
    requires |s| <= n && Counted(depth, dims) && IsUnexpected(AtClosing(n, s, depth, dims, elems))
    ensures AtClosing(n + |x|, s + x, depth, dims, elems) == AtClosing(n, s, depth, dims, elems)
    decreases |s|, 0
  {
    assert (s + x)[0] == s[0] && (s + x)[1..] == s[1..] + x;
    if s[0] == ',' && depth > 0 {
      ElementErrorStays(n, s[1..], x, depth, Increment(dims, depth - 1), elems);
    } else if s[0] == '}' && depth > 0 {
      ClosingErrorStays(n, s[1..], x, depth - 1, Increment(dims, depth - 1), elems);
    }
  }

  lemma {:induction false} EmptyErrorStays(n: nat, s: string, x: string, depth: nat)
    requires |s| <= n && IsUnexpected(AtEmpty(n, s, depth))
    ensures AtEmpty(n + |x|, s + x, depth) == AtEmpty(n, s, depth)
  {
    assert (s + x)[0] == s[0] && (s + x)[1..] == s[1..] + x;
    if s[0] == '}' && depth > 0 {
      EmptyErrorStays(n, s[1..], x, depth - 1);
    }
  }

  // ---------- there is no such error before the offset ----------

  /** Cutting the text inside an opened level. */
  lemma CutBehindOpen(n: nat, s: string, c: nat, depth: nat, dims: seq<nat>, elems: seq<Element>)
    requires 0 < c <= |s| <= n && s[0] == '{' && 0 < depth < |dims| && Counted(depth, dims)
    ensures Counted(depth + 1, dims[depth := 0])
    ensures AtElement(n, s, depth, dims, elems) == AtElement(n, s[1..], depth + 1, dims[depth := 0], elems)
    ensures AtElement(n - |s| + c, s[..c], depth, dims, elems) ==
            AtElement(n - |s| + c, s[1..][..c - 1], depth + 1, dims[depth := 0], elems)
  {
    assert s[..c][0] == '{' && s[..c][1..] == s[1..][..c - 1];
  }

  /** Cutting the text behind an element. */
  lemma CutBehindElement(n: nat, s: string, c: nat, depth: nat, dims: seq<nat>, elems: seq<Element>)
    requires c <= |s| <= n && 0 < depth && Counted(depth, dims)
    requires OneElement(s).Some? && OneElement(s).value.1 <= c && (s[0] == '"' || OneElement(s).value.1 < c)
    ensures var (e, k) := OneElement(s).value;
            AtElement(n - |s| + c, s[..c], depth, dims, elems) ==
            AtClosing(n - |s| + c, s[k..][..c - k], depth, dims, elems + [e])
  {
    var k := OneElement(s).value.1;
    assert s[..c] == s[..k] + s[k..][..c - k];
    SameElement(s, s[k..][..c - k]);
    ReadsOneElement(n - |s| + c, s[..c], depth, dims, elems);
  }

  lemma {:induction false} ElementErrorAt(n: nat, s: string, depth: nat, dims: seq<nat>, elems: seq<Element>) returns (m: nat)
    requires |s| <= n && 0 < depth && Counted(depth, dims) && IsUnexpected(AtElement(n, s, depth, dims, elems))
    ensures m < |s| && AtElement(n, s, depth, dims, elems) == Err(Unexpected(n - |s| + m))
    ensures !IsUnexpected(AtElement(n - |s| + m, s[..m], depth, dims, elems))
    decreases |s|, 2
  {
    EndIsNoError(n - |s|, depth, dims, elems);
    if s == "" || s[0] != '{' {
      m := PlainElementErrorAt(n, s, depth, dims, elems);
    } else if depth == |dims| {
      m := 0;
    } else {
      CutBehindOpen(n, s, 1, depth, dims, elems);
      hide AtElement, AtClosing, Counted;
      m := ElementErrorAt(n, s[1..], depth + 1, dims[depth := 0], elems);
      CutBehindOpen(n, s, m + 1, depth, dims, elems);
      m := m + 1;
    }
  }

  lemma {:induction false} PlainElementErrorAt(n: nat, s: string, depth: nat, dims: seq<nat>, elems: seq<Element>)
    returns (m: nat)
    requires |s| <= n && (s != "" ==> s[0] != '{')
    requires 0 < depth && Counted(depth, dims) && IsUnexpected(AtElement(n, s, depth, dims, elems))
    ensures m < |s| && AtElement(n, s, depth, dims, elems) == Err(Unexpected(n - |s| + m))
    ensures !IsUnexpected(AtElement(n - |s| + m, s[..m], depth, dims, elems))
    decreases |s|, 1
  {
    hide AtElement, AtClosing, Counted, ScanQuoted, RawLength;
    ReadsOneElement(n, s, depth, dims, elems);
    if OneElement(s).Some? {
      var (e, k) := OneElement(s).value;
      m := ClosingErrorAt(n, s[k..], depth, dims, elems + [e]);
      CutBehindElement(n, s, k + m, depth, dims, elems);
      m := k + m;
    } else {
      EndIsNoError(n - |s|, depth, dims, elems);
      m := 0;
    }
  }

  lemma {:induction false} ClosingErrorAt(n: nat, s: string, depth: nat, dims: seq<nat>, elems: seq<Element>) returns (m: nat)
    requires |s| <= n && Counted(depth, dims) && IsUnexpected(AtClosing(n, s, depth, dims, elems))
    ensures m < |s| && AtClosing(n, s, depth, dims, elems) == Err(Unexpected(n - |s| + m))
    ensures !IsUnexpected(AtClosing(n - |s| + m, s[..m], depth, dims, elems))
    ensures depth > 0 && EndsElement(s[0]) ==> m > 0
    decreases |s|, 0
  {
    if s[0] == ',' && depth > 0 {
      m := ElementErrorAt(n, s[1..], depth, Increment(dims, depth - 1), elems);
      assert s[..m + 1][1..] == s[1..][..m];
      m := m + 1;
    } else if s[0] == '}' && depth > 0 {
      m := ClosingErrorAt(n, s[1..], depth - 1, Increment(dims, depth - 1), elems);
      assert s[..m + 1][1..] == s[1..][..m];
      m := m + 1;
    } else {
      m := 0;
    }
  }

  lemma {:induction false} EmptyErrorAt(n: nat, s: string, depth: nat) returns (m: nat)
    requires |s| <= n && IsUnexpected(AtEmpty(n, s, depth))
    ensures m < |s| && AtEmpty(n, s, depth) == Err(Unexpected(n - |s| + m))
    ensures !IsUnexpected(AtEmpty(n - |s| + m, s[..m], depth))
  {
    if s[0] == '}' && depth > 0 {
      m := EmptyErrorAt(n, s[1..], depth - 1);
      assert s[..m + 1][1..] == s[1..][..m];
      m := m + 1;
    } else {
      m := 0;
    }
  }

  // ---------- the error shows as soon as its character is there ----------

  lemma {:induction false} ElementErrorSeen(n: nat, s: string, c: nat, depth: nat, dims: seq<nat>, elems: seq<Element>)
    requires c <= |s| <= n && 0 < depth && Counted(depth, dims) && IsUnexpected(AtElement(n, s, depth, dims, elems))
    requires AtElement(n, s, depth, dims, elems).error.at < n - |s| + c
    ensures AtElement(n - |s| + c, s[..c], depth, dims, elems) == AtElement(n, s, depth, dims, elems)
    decreases |s|, 2
  {
    var m := ElementErrorAt(n, s, depth, dims, elems);
    if s[0] != '{' {
      PlainElementErrorSeen(n, s, c, depth, dims, elems);
    } else if depth == |dims| {
      assert s[..c][0] == '{';
    } else {
      CutBehindOpen(n, s, c, depth, dims, elems);
      hide AtElement, AtClosing, Counted;
      m := ElementErrorAt(n, s[1..], depth + 1, dims[depth := 0], elems);
      ElementErrorSeen(n, s[1..], c - 1, depth + 1, dims[depth := 0], elems);
    }
  }

  lemma {:induction false} PlainElementErrorSeen(n: nat, s: string, c: nat, depth: nat, dims: seq<nat>, elems: seq<Element>)
    requires 0 < c <= |s| <= n && s[0] != '{'
    requires 0 < depth && Counted(depth, dims) && IsUnexpected(AtElement(n, s, depth, dims, elems))
    requires AtElement(n, s, depth, dims, elems).error.at < n - |s| + c
    ensures AtElement(n - |s| + c, s[..c], depth, dims, elems) == AtElement(n, s, depth, dims, elems)
    decreases |s|, 1
  {
    hide AtElement, AtClosing, Counted, ScanQuoted;
    ReadsOneElement(n, s, depth, dims, elems);
    if OneElement(s).Some? {
      var (e, k) := OneElement(s).value;
      var m := ClosingErrorAt(n, s[k..], depth, dims, elems + [e]);
      CutBehindElement(n, s, c, depth, dims, elems);
      ClosingErrorSeen(n, s[k..], c - k, depth, dims, elems + [e]);
    } else {
      assert s[..c][0] == s[0];
      ReadsOneElement(n - |s| + c, s[..c], depth, dims, elems);
    }
  }

  lemma {:induction false} ClosingErrorSeen(n: nat, s: string, c: nat, depth: nat, dims: seq<nat>, elems: seq<Element>)
    requires c <= |s| <= n && Counted(depth, dims) && IsUnexpected(AtClosing(n, s, depth, dims, elems))
    requires AtClosing(n, s, depth, dims, elems).error.at < n - |s| + c
    ensures AtClosing(n - |s| + c, s[..c], depth, dims, elems) == AtClosing(n, s, depth, dims, elems)
    decreases |s|, 0
  {
    var m := ClosingErrorAt(n, s, depth, dims, elems);
    assert s[..c][0] == s[0];
    if s[0] == ',' && depth > 0 {
      assert s[..c][1..] == s[1..][..c - 1];
      ElementErrorSeen(n, s[1..], c - 1, depth, Increment(dims, depth - 1), elems);
    } else if s[0] == '}' && depth > 0 {
      assert s[..c][1..] == s[1..][..c - 1];
      ClosingErrorSeen(n, s[1..], c - 1, depth - 1, Increment(dims, depth - 1), elems);
    }
  }

  lemma {:induction false} EmptyErrorSeen(n: nat, s: string, c: nat, depth: nat)
    requires c <= |s| <= n && IsUnexpected(AtEmpty(n, s, depth)) && AtEmpty(n, s, depth).error.at < n - |s| + c
    ensures AtEmpty(n - |s| + c, s[..c], depth) == AtEmpty(n, s, depth)
  {
    var m := EmptyErrorAt(n, s, depth);
    assert s[..c][0] == s[0];
    if s[0] == '}' && depth > 0 {
      assert s[..c][1..] == s[1..][..c - 1];
      EmptyErrorSeen(n, s[1..], c - 1, depth - 1);
    }
  }

  // ---------- whole texts ----------

  lemma {:induction false} AfterOpenAppend(s: string, x: string)
    requires AfterOpen(s) != ""
    ensures AfterOpen(s + x) == AfterOpen(s) + x
  {
    assert (s + x)[0] == s[0] && (s + x)[1..] == s[1..] + x;
    if s[0] == '{' {
      AfterOpenAppend(s[1..], x);
    }
  }

  lemma ErrorStays(src: string, x: string)
    requires IsUnexpected(Parse(src))
    ensures Parse(src + x) == Parse(src)
  {
    var rest := AfterOpen(src);
    var depth := |src| - |rest|;
    assert (src + x)[0] == src[0];
    AfterOpenAppend(src, x);
    assert (rest + x)[0] == rest[0];
    if rest[0] == '}' {
      EmptyErrorStays(|src|, rest, x, depth);
    } else {
      ElementErrorStays(|src|, rest, x, depth, Zeros(depth), []);
    }
  }

  lemma {:induction false} AfterOpenPrefix(s: string, m: nat)
    requires m <= |AfterOpen(s)|
    ensures AfterOpen(s[..|s| - |AfterOpen(s)| + m]) == AfterOpen(s)[..m]
  {
    if s != "" && s[0] == '{' {
      var d := |s| - |AfterOpen(s)|;
      assert s[..d + m][1..] == s[1..][..d - 1 + m];
      AfterOpenPrefix(s[1..], m);
    }
  }

  lemma ErrorAt(src: string) returns (at: nat)
    requires IsUnexpected(Parse(src))
    ensures at < |src| && Parse(src) == Err(Unexpected(at)) && !IsUnexpected(Parse(src[..at]))
  {
    var rest := AfterOpen(src);
    var depth := |src| - |rest|;
    var m;
    if rest[0] == '}' {
      m := EmptyErrorAt(|src|, rest, depth);
    } else {
      m := ElementErrorAt(|src|, rest, depth, Zeros(depth), []);
    }
    at := depth + m;
    AfterOpenPrefix(src, m);
    assert src[..at][0] == src[0];
    assert m > 0 ==> rest[..m][0] == rest[0];
  }

  lemma ErrorSeen(src: string, at: nat)
    requires Parse(src) == Err(Unexpected(at)) && at < |src|
    ensures IsUnexpected(Parse(src[..at + 1]))
  {
    var rest := AfterOpen(src);
    var depth := |src| - |rest|;
    var m;
    if rest[0] == '}' {
      m := EmptyErrorAt(|src|, rest, depth);
      EmptyErrorSeen(|src|, rest, m + 1, depth);
    } else {
      m := ElementErrorAt(|src|, rest, depth, Zeros(depth), []);
      ElementErrorSeen(|src|, rest, m + 1, depth, Zeros(depth), []);
    }
    AfterOpenPrefix(src, m + 1);
    assert src[..at + 1][0] == src[0] && rest[..m + 1][0] == rest[0];
  }

  /** The offset of an unexpected character is the length of the longest beginning of the text that
      has no unexpected character. */
  lemma UnexpectedIsFirst(src: string, at: nat)
    ensures Parse(src) == Err(Unexpected(at)) <==>
              at < |src| && IsUnexpected(Parse(src[..at + 1])) && !IsUnexpected(Parse(src[..at]))
  {
    if IsUnexpected(Parse(src)) {
      var k := ErrorAt(src);
      ErrorSeen(src, k);
    }
    if at < |src| && IsUnexpected(Parse(src[..at + 1])) && !IsUnexpected(Parse(src[..at])) {
      var k := ErrorAt(src[..at + 1]);
      if k < at {
        ErrorSeen(src[..at + 1], k);
        assert src[..at + 1][..k + 1] + src[k + 1..at] == src[..at];
        ErrorStays(src[..at + 1][..k + 1], src[k + 1..at]);
      }
      ErrorStays(src[..at + 1], src[at + 1..]);
      assert src[..at + 1] + src[at + 1..] == src;
    }
  }

  // ---------- the other errors ----------

  lemma {:induction false} ElementMissesClose(n: nat, s: string, depth: nat, dims: seq<nat>, elems: seq<Element>)
    requires |s| <= n && 0 < depth && Counted(depth, dims)
    ensures var r := AtElement(n, s, depth, dims, elems);
            r != Err(ExpectedOpen) && (r.Err? && r.error.ExpectedClose? ==> r.error.at == n)
    decreases |s|, 1
  {
    if s != "" && s[0] == '{' {
      if depth < |dims| {
        ElementMissesClose(n, s[1..], depth + 1, dims[depth := 0], elems);
      }
    } else {
      ReadsOneElement(n, s, depth, dims, elems);
      if OneElement(s).Some? {
        ClosingMissesClose(n, s[OneElement(s).value.1..], depth, dims, elems + [OneElement(s).value.0]);
      }
    }
  }

  lemma {:induction false} ClosingMissesClose(n: nat, s: string, depth: nat, dims: seq<nat>, elems: seq<Element>)
    requires |s| <= n && Counted(depth, dims)
    ensures var r := AtClosing(n, s, depth, dims, elems);
            r != Err(ExpectedOpen) && (r.Err? && r.error.ExpectedClose? ==> r.error.at == n)
    decreases |s|, 0
  {
    if s != "" && s[0] == ',' && depth > 0 {
      ElementMissesClose(n, s[1..], depth, Increment(dims, depth - 1), elems);
    } else if s != "" && s[0] == '}' && depth > 0 {
      ClosingMissesClose(n, s[1..], depth - 1, Increment(dims, depth - 1), elems);
    }
  }

  lemma {:induction false} EmptyMissesClose(n: nat, s: string, depth: nat)
    requires |s| <= n
    ensures var r := AtEmpty(n, s, depth);
            r != Err(ExpectedOpen) && (r.Err? && r.error.ExpectedClose? ==> r.error.at == n)
  {
    if s != "" && s[0] == '}' && depth > 0 {
      EmptyMissesClose(n, s[1..], depth - 1);
    }
  }

  /** An opening brace is missed exactly where there is none, and a closing one only at the end. */
  lemma MissedBraces(src: string, at: nat)
    ensures Parse(src) == Err(ExpectedOpen) <==> src == "" || src[0] != '{'
    ensures Parse(src) == Err(ExpectedClose(at)) ==> at == |src|
  {
    if src != "" && src[0] == '{' {
      var rest := AfterOpen(src);
      var depth := |src| - |rest|;
      EmptyMissesClose(|src|, rest, depth);
      ElementMissesClose(|src|, rest, depth, Zeros(depth), []);
    }
  }
}
