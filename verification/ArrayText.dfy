/** The parser of PostgreSQL array texts (section 8.15.6 of the PostgreSQL documentation), with its
    stack of dimension counters: as functions on the rest of the text, and as the code runs it. */
module ArrayText {
  import opened Common

  datatype ParseError = ExpectedOpen | Unexpected(at: nat) | ExpectedClose(at: nat) | Ragged

  /** An unquoted NULL is `None`. */
  type Element = Option<string>

  datatype Parsed = Parsed(dims: seq<nat>, elems: seq<Element>)

  type Outcome = Result<Parsed, ParseError>

  // ---------- the parser as functions on the rest of the text ----------

  /** The text behind the leading opening braces. */
  function AfterOpen(s: string): (rest: string)
    ensures |rest| <= |s| && (rest != "" ==> rest[0] != '{')
    ensures s != "" && s[0] == '{' ==> |rest| < |s|
  {
    if s != "" && s[0] == '{' then AfterOpen(s[1..]) else s
  }

  /** A quoted element, from behind its opening quote: the element and the text behind its
      closing quote. A backslash makes the next character part of the element. */
  function ScanQuoted(s: string, elem: string, escape: bool): (r: Option<(string, string)>)
    ensures r.Some? ==> |r.value.1| < |s|
  {
    if s == "" then None
    else if escape then ScanQuoted(s[1..], elem + [s[0]], false)
    else if s[0] == '\\' then ScanQuoted(s[1..], elem, true)
    else if s[0] == '"' then Some((elem, s[1..]))
    else ScanQuoted(s[1..], elem + [s[0]], false)
  }

  predicate EndsElement(c: char) {
    c == ',' || c == '}'
  }

  /** The length of an unquoted element; |s| when it never ends. */
  function RawLength(s: string): (k: nat)
    ensures k <= |s|
    ensures forall j :: 0 <= j < k ==> !EndsElement(s[j])
    ensures k < |s| ==> EndsElement(s[k])
  {
    if s == "" || EndsElement(s[0]) then 0 else 1 + RawLength(s[1..])
  }

  function RawElement(text: string): Element {
    if text == "NULL" then None else Some(text)
  }

  /** The counters of closed levels are positive. */
  predicate Counted(depth: nat, dims: seq<nat>) {
    depth <= |dims| && forall k :: depth <= k < |dims| ==> dims[k] > 0
  }

  function Increment(dims: seq<nat>, k: nat): seq<nat>
    requires k < |dims|
  {
    dims[k := dims[k] + 1]
  }

  /** One element is expected in `s`, which ends the text of length `n`. */
  function AtElement(n: nat, s: string, depth: nat, dims: seq<nat>, elems: seq<Element>): Outcome
    requires |s| <= n && 0 < depth && Counted(depth, dims)
    decreases |s|, 1
  {
    if s == "" then AtClosing(n, s, depth, dims, elems)
    else if s[0] == '{' then
      if depth == |dims| then AtClosing(n, s, depth, dims, elems)
      else AtElement(n, s[1..], depth + 1, dims[depth := 0], elems)
    else if s[0] == '"' then
      match ScanQuoted(s[1..], "", false)
      case None => AtClosing(n, "", depth, dims, elems)
      case Some((elem, rest)) => AtClosing(n, rest, depth, dims, elems + [Some(elem)])
    else
      var k := RawLength(s);
      if k == |s| then AtClosing(n, "", depth, dims, elems)
      else if k == 0 then Err(Unexpected(n - |s|))
      else AtClosing(n, s[k..], depth, dims, elems + [RawElement(s[..k])])
  }

  /** A delimiter or a closing brace is expected. */
  function AtClosing(n: nat, s: string, depth: nat, dims: seq<nat>, elems: seq<Element>): Outcome
    requires |s| <= n && Counted(depth, dims)
    decreases |s|, 0
  {
    if s == "" then AtEnd(n, depth, dims, elems)
    else if s[0] == ',' && depth > 0 then AtElement(n, s[1..], depth, Increment(dims, depth - 1), elems)
    else if s[0] == '}' && depth > 0 then AtClosing(n, s[1..], depth - 1, Increment(dims, depth - 1), elems)
    else Err(Unexpected(n - |s|))
  }

  /** Dividing by a counter is safe: at depth 0 every level has been closed. */
  predicate AllDivide(dims: seq<nat>, count: nat)
    requires Counted(0, dims)
  {
    forall k :: 0 <= k < |dims| ==> count % dims[k] == 0
  }

  function AtEnd(n: nat, depth: nat, dims: seq<nat>, elems: seq<Element>): Outcome
    requires Counted(depth, dims)
  {
    if depth > 0 then Err(ExpectedClose(n))
    else if AllDivide(dims, |elems|) then Ok(Parsed(dims, elems))
    else Err(Ragged)
  }

  /** Only closing braces may follow an array without elements. */
  function AtEmpty(n: nat, s: string, depth: nat): Outcome
    requires |s| <= n
  {
    if s == "" then (if depth > 0 then Err(ExpectedClose(n)) else Ok(Parsed([], [])))
    else if s[0] == '}' && depth > 0 then AtEmpty(n, s[1..], depth - 1)
    else Err(Unexpected(n - |s|))
  }

  function Zeros(k: nat): seq<nat> {
    seq(k, _ => 0)
  }

  function Parse(src: string): Outcome {
    if src == "" || src[0] != '{' then Err(ExpectedOpen)
    else
      var rest := AfterOpen(src);
      var depth := |src| - |rest|;
      if rest != "" && rest[0] == '}' then AtEmpty(|src|, rest, depth)
      else AtElement(|src|, rest, depth, Zeros(depth), [])
  }

  // ---------- the parser as the code runs it ----------

  /** The loop over a quoted element; `i` is behind the opening quote. */
  method ReadQuoted(src: string, start: nat) returns (i: nat, found: Option<string>)
    requires start <= |src|
    ensures start <= i <= |src|
    ensures match ScanQuoted(src[start..], "", false)
            case None => found == None && i == |src|
            case Some((elem, rest)) => found == Some(elem) && rest == src[i..] && start < i
  {
    i := start;
    var elem, escape := "", false;
    while i < |src|
      invariant start <= i <= |src|
      invariant ScanQuoted(src[start..], "", false) == ScanQuoted(src[i..], elem, escape)
    {
      assert src[i..][1..] == src[i + 1..];
      if escape {
        elem := elem + [src[i]];
        escape := false;
      } else if src[i] == '\\' {
        escape := true;
      } else if src[i] == '"' {
        return i + 1, Some(elem);
      } else {
        elem := elem + [src[i]];
      }
      i := i + 1;
    }
    return i, None;
  }

  /** The loop over an unquoted element: stops at a delimiter or a closing brace. */
  method ReadRaw(src: string, start: nat) returns (i: nat)
    requires start <= |src|
    ensures start <= i <= |src| && i - start == RawLength(src[start..])
  {
    i := start;
    while i < |src| && !EndsElement(src[i])
      invariant start <= i <= |src|
      invariant RawLength(src[start..]) == i - start + RawLength(src[i..])
    {
      assert src[i..][1..] == src[i + 1..];
      i := i + 1;
    }
  }

  /** The loop over the closing braces of an array without elements. */
  method CloseEmpty(src: string, start: nat, open: nat) returns (r: Outcome)
    requires start <= |src|
    ensures r == AtEmpty(|src|, src[start..], open)
  {
    var i, depth := start, open;
    while i < |src|
      invariant start <= i <= |src|
      invariant AtEmpty(|src|, src[start..], open) == AtEmpty(|src|, src[i..], depth)
    {
      assert src[i..][1..] == src[i + 1..];
      if src[i] == '}' && depth > 0 {
        depth, i := depth - 1, i + 1;
      } else {
        return Err(Unexpected(i));
      }
    }
    return if depth > 0 then Err(ExpectedClose(i)) else Ok(Parsed([], []));
  }

  /** The loop at the label Element: opening braces, then one element. Either the parse has
      failed, or a delimiter or closing brace comes next. */
  method ReadElement(src: string, start: nat, open: nat, dims: array<nat>, had: seq<Element>)
    returns (i: nat, depth: nat, elems: seq<Element>, error: Option<ParseError>)
    requires start <= |src| && 0 < open && Counted(open, dims[..])
    modifies dims
    ensures start <= i <= |src| && Counted(depth, dims[..])
    ensures var goal := AtElement(|src|, src[start..], open, old(dims[..]), had);
            goal == if error.Some? then Err(error.value) else AtClosing(|src|, src[i..], depth, dims[..], elems)
  {
    i, depth, elems, error := start, open, had, None;
    ghost var counters := dims[..];
    ghost var goal := AtElement(|src|, src[start..], open, counters, had);
    while i < |src|
      invariant start <= i <= |src| && dims[..] == counters && 0 < depth && Counted(depth, counters)
      invariant goal == AtElement(|src|, src[i..], depth, counters, elems)
    {
      assert src[i..][1..] == src[i + 1..];
      if src[i] == '{' {
        if depth == dims.Length {
          return;
        }
        depth := depth + 1;
        dims[depth - 1] := 0;
        counters := counters[depth - 1 := 0];
        i := i + 1;
      } else if src[i] == '"' {
        var found;
        i, found := ReadQuoted(src, i + 1);
        if found.Some? {
          elems := elems + [Some(found.value)];
          return;
        }
        assert src[i..] == "";
      } else {
        ghost var rest := src[i..];
        var end := ReadRaw(src, i);
        if end < |src| {
          if end == i {
            error := Some(Unexpected(i));
            return;
          }
          assert rest[..end - i] == src[i..end] && rest[end - i..] == src[end..];
          elems := elems + [RawElement(src[i..end])];
          i := end;
          return;
        }
        i := end;
        assert src[i..] == "";
      }
    }
  }

  /** The loop between two elements: closing braces, up to the next delimiter or the end. */
  method ReadClosing(src: string, start: nat, open: nat, dims: array<nat>, ghost elems: seq<Element>)
    returns (i: nat, depth: nat, more: bool, error: Option<ParseError>)
    requires start <= |src| && Counted(open, dims[..])
    modifies dims
    ensures start <= i <= |src| && Counted(depth, dims[..])
    ensures error.None? && more ==> start < i && 0 < depth
    ensures error.None? && !more ==> i == |src|
    ensures var goal := AtClosing(|src|, src[start..], open, old(dims[..]), elems);
            goal == if error.Some? then Err(error.value)
                    else if more then AtElement(|src|, src[i..], depth, dims[..], elems)
                    else AtEnd(|src|, depth, dims[..], elems)
  {
    hide AtElement, AtEnd;
    i, depth, more, error := start, open, false, None;
    ghost var counters := dims[..];
    ghost var goal := AtClosing(|src|, src[start..], open, counters, elems);
    while i < |src|
      invariant start <= i <= |src| && dims[..] == counters && Counted(depth, counters)
      invariant goal == AtClosing(|src|, src[i..], depth, counters, elems)
    {
      assert src[i..][1..] == src[i + 1..];
      if src[i] == ',' && depth > 0 {
        dims[depth - 1] := dims[depth - 1] + 1;
        counters := Increment(counters, depth - 1);
        i, more := i + 1, true;
        return;
      } else if src[i] == '}' && depth > 0 {
        dims[depth - 1] := dims[depth - 1] + 1;
        counters := Increment(counters, depth - 1);
        i, depth := i + 1, depth - 1;
      } else {
        error := Some(Unexpected(i));
        return;
      }
    }
  }

  /** `parseArray` with the delimiter ','. It is total: every index, every counter access and
      every division is safe on every input. */
  method ParseArray(src: string) returns (r: Outcome)
    ensures r == Parse(src)
  {
    hide AtElement, AtClosing, AtEmpty;
    if |src| < 1 || src[0] != '{' {
      return Err(ExpectedOpen);
    }
    var depth: nat, i: nat := 0, 0;
    while i < |src| && src[i] == '{'
      invariant 0 <= i == depth <= |src|
      invariant AfterOpen(src) == AfterOpen(src[i..])
    {
      assert src[i..][1..] == src[i + 1..];
      depth, i := depth + 1, i + 1;
    }
    assert AfterOpen(src) == src[i..];
    if i < |src| && src[i] == '}' {
      r := CloseEmpty(src, i, depth);
      return;
    }
    var dims := new nat[i](_ => 0);
    assert dims[..] == Zeros(i);
    var elems: seq<Element> := [];
    var more := true;
    while more
      invariant 0 <= i <= |src| && Counted(depth, dims[..])
      invariant (more ==> 0 < depth) &&
                Parse(src) == if more then AtElement(|src|, src[i..], depth, dims[..], elems)
                              else AtEnd(|src|, depth, dims[..], elems)
      decreases |src| - i, more
    {
      var error;
      i, depth, elems, error := ReadElement(src, i, depth, dims, elems);
      if error.Some? {
        return Err(error.value);
      }
      i, depth, more, error := ReadClosing(src, i, depth, dims, elems);
      if error.Some? {
        return Err(error.value);
      }
    }
    if depth > 0 {
      return Err(ExpectedClose(|src|));
    }
    var matching := true;
    var k := 0;
    while k < dims.Length
      invariant 0 <= k <= dims.Length
      invariant matching <==> forall j :: 0 <= j < k ==> |elems| % dims[j] == 0
    {
      if |elems| % dims[k] != 0 {
        matching := false;
      }
      k := k + 1;
    }
    return if matching then Ok(Parsed(dims[..], elems)) else Err(Ragged);
  }
}
