/** What the array parser accepts and returns: its counters, the grammar of one-dimensional
    arrays, and the round trip with the printer. */
module ArrayGrammar {
  import opened Common
  import opened ArrayText

  // ---------- counters ----------

  ghost predicate GoodCounters(r: Outcome) {
    r.Ok? ==>
      && Counted(0, r.value.dims) && AllDivide(r.value.dims, |r.value.elems|)
      && (|r.value.dims| == 1 ==> r.value.dims == [|r.value.elems|])
  }

  lemma {:induction false} ElementCounters(n: nat, s: string, depth: nat, dims: seq<nat>, elems: seq<Element>)
    requires |s| <= n && 0 < depth && Counted(depth, dims)
    requires |dims| == 1 ==> dims == [|elems|]
    ensures GoodCounters(AtElement(n, s, depth, dims, elems))
    decreases |s|, 1
  {
    if s != "" && s[0] == '{' && depth < |dims| {
      ElementCounters(n, s[1..], depth + 1, dims[depth := 0], elems);
    } else if s != "" && s[0] == '"' && ScanQuoted(s[1..], "", false).Some? {
      var (elem, rest) := ScanQuoted(s[1..], "", false).value;
      ClosingCounters(n, rest, depth, dims, elems + [Some(elem)]);
    } else if s != "" && s[0] != '{' && s[0] != '"' && 0 < RawLength(s) < |s| {
      ClosingCounters(n, s[RawLength(s)..], depth, dims, elems + [RawElement(s[..RawLength(s)])]);
    }
  }

  lemma {:induction false} ClosingCounters(n: nat, s: string, depth: nat, dims: seq<nat>, elems: seq<Element>)
    requires |s| <= n && Counted(depth, dims)
    requires |dims| == 1 ==> dims == [|elems| - depth]
    ensures GoodCounters(AtClosing(n, s, depth, dims, elems))
    decreases |s|, 0
  {
    if s != "" && s[0] == ',' && depth > 0 {
      ElementCounters(n, s[1..], depth, Increment(dims, depth - 1), elems);
    } else if s != "" && s[0] == '}' && depth > 0 {
      ClosingCounters(n, s[1..], depth - 1, Increment(dims, depth - 1), elems);
    }
  }

  /** Every dimension of a parsed array is positive and divides the number of elements; with one
      dimension it is that number, and with none there are no elements. */
  lemma DimensionsFitElements(src: string)
    requires Parse(src).Ok?
    ensures var p := Parse(src).value;
            && (forall k :: 0 <= k < |p.dims| ==> p.dims[k] > 0 && |p.elems| % p.dims[k] == 0)
            && (|p.dims| == 1 ==> p.dims == [|p.elems|])
            && (|p.dims| == 0 ==> p.elems == [])
  {
    var rest := AfterOpen(src);
    var depth := |src| - |rest|;
    if rest != "" && rest[0] == '}' {
      EmptyResult(|src|, rest, depth);
    } else {
      ElementCounters(|src|, rest, depth, Zeros(depth), []);
      ElementDims(|src|, rest, depth, Zeros(depth), []);
    }
  }

  lemma {:induction false} EmptyResult(n: nat, s: string, depth: nat)
    requires |s| <= n
    ensures AtEmpty(n, s, depth) == Ok(Parsed([], [])) <==> s == Braces('}', depth)
    ensures Finished(AtEmpty(n, s, depth)) ==> AtEmpty(n, s, depth) == Ok(Parsed([], []))
  {
    if s != "" && s[0] == '}' && depth > 0 {
      EmptyResult(n, s[1..], depth - 1);
      assert s == ['}'] + s[1..];
      assert Braces('}', depth) == ['}'] + Braces('}', depth - 1);
    }
  }

  /** The number of dimensions is fixed once the first element is reached. */
  lemma {:induction false} ElementDims(n: nat, s: string, depth: nat, dims: seq<nat>, elems: seq<Element>)
    requires |s| <= n && 0 < depth && Counted(depth, dims)
    ensures AtElement(n, s, depth, dims, elems).Ok? ==> |AtElement(n, s, depth, dims, elems).value.dims| == |dims|
    decreases |s|, 1
  {
    if s != "" && s[0] == '{' && depth < |dims| {
      ElementDims(n, s[1..], depth + 1, dims[depth := 0], elems);
    } else if s != "" && s[0] == '"' && ScanQuoted(s[1..], "", false).Some? {
      var (elem, rest) := ScanQuoted(s[1..], "", false).value;
      ClosingDims(n, rest, depth, dims, elems + [Some(elem)]);
    } else if s != "" && s[0] != '{' && s[0] != '"' && 0 < RawLength(s) < |s| {
      ClosingDims(n, s[RawLength(s)..], depth, dims, elems + [RawElement(s[..RawLength(s)])]);
    }
  }

  lemma {:induction false} ClosingDims(n: nat, s: string, depth: nat, dims: seq<nat>, elems: seq<Element>)
    requires |s| <= n && Counted(depth, dims)
    ensures AtClosing(n, s, depth, dims, elems).Ok? ==> |AtClosing(n, s, depth, dims, elems).value.dims| == |dims|
    decreases |s|, 0
  {
    if s != "" && s[0] == ',' && depth > 0 {
      ElementDims(n, s[1..], depth, Increment(dims, depth - 1), elems);
    } else if s != "" && s[0] == '}' && depth > 0 {
      ClosingDims(n, s[1..], depth - 1, Increment(dims, depth - 1), elems);
    }
  }

  // ---------- the grammar of one-dimensional arrays ----------

  /** A character of a quoted element, written as itself or behind a backslash. */
  datatype QuotedChar = QuotedChar(c: char, escaped: bool)

  datatype Item = Quoted(chars: seq<QuotedChar>) | Raw(text: string)

  predicate ValidItem(item: Item) {
    match item
    case Quoted(chars) => forall k :: 0 <= k < |chars| && !chars[k].escaped ==> chars[k].c != '"' && chars[k].c != '\\'
    case Raw(text) => text != "" && text[0] != '{' && text[0] != '"' && forall k :: 0 <= k < |text| ==> !EndsElement(text[k])
  }

  ghost predicate ValidItems(items: seq<Item>) {
    forall k {:trigger ValidItem(items[k])} :: 0 <= k < |items| ==> ValidItem(items[k])
  }

  function CharText(q: QuotedChar): string {
    if q.escaped then ['\\', q.c] else [q.c]
  }

  function CharsText(chars: seq<QuotedChar>): string {
    if chars == [] then "" else CharText(chars[0]) + CharsText(chars[1..])
  }

  function CharsValue(chars: seq<QuotedChar>): string {
    seq(|chars|, k requires 0 <= k < |chars| => chars[k].c)
  }

  function ItemText(item: Item): string {
    match item
    case Quoted(chars) => "\"" + (CharsText(chars) + "\"")
    case Raw(text) => text
  }

  /** The text an item stands for. */
  function WrittenText(item: Item): string {
    match item
    case Quoted(chars) => CharsValue(chars)
    case Raw(text) => text
  }

  /** Only an unquoted NULL in capitals stands for no string. */
  function ItemValue(item: Item): Element {
    if item == Raw("NULL") then None else Some(WrittenText(item))
  }

  /** The items with their delimiters and the final brace. */
  function ItemsText(items: seq<Item>): string
    requires items != []
  {
    ItemText(items[0]) + (if |items| == 1 then "}" else "," + ItemsText(items[1..]))
  }

  function Values(items: seq<Item>): seq<Element> {
    seq(|items|, k requires 0 <= k < |items| => ItemValue(items[k]))
  }

  function Braces(c: char, n: nat): string {
    seq(n, _ => c)
  }

  /** `{}` with any nesting, or a list of items in braces. */
  ghost predicate IsLinearText(src: string, elems: seq<Element>) {
    || (elems == [] && exists n: nat :: n > 0 && src == Braces('{', n) + Braces('}', n))
    || (exists items {:trigger ItemsText(items)} ::
          items != [] && ValidItems(items) && src == "{" + ItemsText(items) && elems == Values(items))
  }

  // ---------- completeness ----------

  lemma ScanOne(q: QuotedChar, tail: string, elem: string)
    requires q.escaped || (q.c != '"' && q.c != '\\')
    ensures ScanQuoted(CharText(q) + tail, elem, false) == ScanQuoted(tail, elem + [q.c], false)
  {
    var s := CharText(q) + tail;
    if q.escaped {
      assert s[1..][0] == q.c && s[1..][1..] == tail;
    } else {
      assert s[1..] == tail;
    }
  }

  lemma CharsCons(q: QuotedChar, tail: seq<QuotedChar>, elem: string)
    ensures CharsText([q] + tail) == CharText(q) + CharsText(tail)
    ensures elem + [q.c] + CharsValue(tail) == elem + CharsValue([q] + tail)
  {
    assert ([q] + tail)[1..] == tail;
  }

  lemma {:induction false} ScanChars(chars: seq<QuotedChar>, rest: string, elem: string)
    requires ValidItem(Quoted(chars))
    ensures ScanQuoted(CharsText(chars) + ("\"" + rest), elem, false) == Some((elem + CharsValue(chars), rest))
    decreases |chars|
  {
    var tail := if chars == [] then "" else CharsText(chars[1..]) + ("\"" + rest);
    if chars == [] {
      assert CharsText(chars) + ("\"" + rest) == "\"" + rest && ("\"" + rest)[1..] == rest;
      assert elem + CharsValue(chars) == elem;
    } else {
      assert chars == [chars[0]] + chars[1..];
      CharsCons(chars[0], chars[1..], elem);
      assert CharsText(chars) + ("\"" + rest) == CharText(chars[0]) + tail;
      ScanOne(chars[0], tail, elem);
      ScanChars(chars[1..], rest, elem + [chars[0].c]);
    }
  }

  lemma ScanRaw(text: string, rest: string)
    requires forall k :: 0 <= k < |text| ==> !EndsElement(text[k])
    requires rest != "" && EndsElement(rest[0])
    ensures RawLength(text + rest) == |text|
  {
    var s := text + rest;
    assert forall k :: 0 <= k < |text| ==> s[k] == text[k];
    assert s[|text|] == rest[0];
  }

  lemma ReadsQuoted(n: nat, chars: seq<QuotedChar>, rest: string, depth: nat, dims: seq<nat>, elems: seq<Element>)
    requires ValidItem(Quoted(chars))
    requires |ItemText(Quoted(chars)) + rest| <= n && 0 < depth && Counted(depth, dims)
    ensures AtElement(n, ItemText(Quoted(chars)) + rest, depth, dims, elems) ==
            AtClosing(n, rest, depth, dims, elems + [Some(CharsValue(chars))])
  {
    var s := ItemText(Quoted(chars)) + rest;
    assert s[0] == '"' && s[1..] == CharsText(chars) + ("\"" + rest);
    ScanChars(chars, rest, "");
    assert "" + CharsValue(chars) == CharsValue(chars);
  }

  lemma ReadsRaw(n: nat, text: string, rest: string, depth: nat, dims: seq<nat>, elems: seq<Element>)
    requires ValidItem(Raw(text)) && rest != "" && EndsElement(rest[0])
    requires |text + rest| <= n && 0 < depth && Counted(depth, dims)
    ensures AtElement(n, text + rest, depth, dims, elems) == AtClosing(n, rest, depth, dims, elems + [RawElement(text)])
  {
    var s := text + rest;
    ScanRaw(text, rest);
    assert s[0] == text[0] && s[..|text|] == text && s[|text|..] == rest;
  }

  /** One valid item is read as its value, wherever it stands. */
  lemma ReadsItem(n: nat, item: Item, rest: string, depth: nat, dims: seq<nat>, elems: seq<Element>)
    requires ValidItem(item) && rest != "" && EndsElement(rest[0])
    requires |ItemText(item) + rest| <= n && 0 < depth && Counted(depth, dims)
    ensures AtElement(n, ItemText(item) + rest, depth, dims, elems) ==
            AtClosing(n, rest, depth, dims, elems + [ItemValue(item)])
  {
    match item {
      case Quoted(chars) => ReadsQuoted(n, chars, rest, depth, dims, elems);
      case Raw(text) => ReadsRaw(n, text, rest, depth, dims, elems);
    }
  }

  lemma ItemsTextCons(item: Item, tail: seq<Item>)
    ensures ItemsText([item] + tail) == ItemText(item) + (if tail == [] then "}" else "," + ItemsText(tail))
  {
    assert ([item] + tail)[1..] == tail;
  }

  lemma ValuesCons(item: Item, tail: seq<Item>, elems: seq<Element>)
    ensures elems + [ItemValue(item)] + Values(tail) == elems + Values([item] + tail)
  {
    assert Values([item] + tail) == [ItemValue(item)] + Values(tail);
    Associative(elems, [ItemValue(item)], Values(tail));
  }

  lemma ValidCons(item: Item, tail: seq<Item>)
    ensures ValidItems([item] + tail) <==> ValidItem(item) && ValidItems(tail)
  {
    var items := [item] + tail;
    assert ValidItems(items) ==> ValidItem(items[0]);
    if ValidItems(items) {
      forall k | 0 <= k < |tail| ensures ValidItem(tail[k]) {
        assert ValidItem(items[k + 1]);
      }
    }
    if ValidItem(item) && ValidItems(tail) {
      forall k | 0 <= k < |items| ensures ValidItem(items[k]) {
        if k > 0 {
          assert ValidItem(tail[k - 1]);
        }
      }
    }
  }

  lemma LastClosing(n: nat, elems: seq<Element>)
    requires n > 0 && elems != []
    ensures AtClosing(n, "}", 1, [|elems| - 1], elems) == Ok(Parsed([|elems|], elems))
  {
    assert Increment([|elems| - 1], 0) == [|elems|] && "}"[1..] == "";
  }

  lemma NextElement(n: nat, s: string, elems: seq<Element>)
    requires |s| < n && elems != []
    ensures AtClosing(n, "," + s, 1, [|elems| - 1], elems) == AtElement(n, s, 1, [|elems|], elems)
  {
    assert Increment([|elems| - 1], 0) == [|elems|] && ("," + s)[1..] == s;
  }

  lemma {:induction false} ReadsItems(n: nat, items: seq<Item>, dims: seq<nat>, elems: seq<Element>)
    requires items != [] && ValidItems(items) && |ItemsText(items)| <= n && dims == [|elems|]
    ensures AtElement(n, ItemsText(items), 1, dims, elems) ==
            Ok(Parsed([|elems| + |items|], elems + Values(items)))
    decreases |items|
  {
    var item, tail := items[0], items[1..];
    assert items == [item] + tail;
    ItemsTextCons(item, tail);
    ValuesCons(item, tail, elems);
    ValidCons(item, tail);
    var rest := if tail == [] then "}" else "," + ItemsText(tail);
    var more := elems + [ItemValue(item)];
    ReadsItem(n, item, rest, 1, dims, elems);
    if tail == [] {
      LastClosing(n, more);
      assert more + Values(tail) == more;
    } else {
      NextElement(n, ItemsText(tail), more);
      ReadsItems(n, tail, [|more|], more);
    }
  }

  lemma {:induction false} LinearTextParses(items: seq<Item>)
    requires items != [] && ValidItems(items)
    ensures Parse("{" + ItemsText(items)) == Ok(Parsed([|items|], Values(items)))
  {
    var src, rest := "{" + ItemsText(items), ItemsText(items);
    assert src[1..] == rest;
    assert ValidItem(items[0]);
    assert rest != "" && rest[0] != '{' && rest[0] != '}';
    assert AfterOpen(src) == rest;
    assert Zeros(1) == [0];
    ReadsItems(|src|, items, [0], []);
    assert [] + Values(items) == Values(items);
  }

  lemma {:induction false} OpenBraces(s: string)
    ensures s == Braces('{', |s| - |AfterOpen(s)|) + AfterOpen(s)
  {
    if s != "" && s[0] == '{' {
      OpenBraces(s[1..]);
      var k := |s| - |AfterOpen(s)|;
      assert Braces('{', k) == ['{'] + Braces('{', k - 1);
      assert s == ['{'] + s[1..];
    }
  }

  lemma {:induction false} AfterBraces(n: nat, rest: string)
    requires rest != "" ==> rest[0] != '{'
    ensures AfterOpen(Braces('{', n) + rest) == rest
  {
    var s := Braces('{', n) + rest;
    if n == 0 {
      assert s == rest;
    } else {
      assert s[1..] == Braces('{', n - 1) + rest;
      AfterBraces(n - 1, rest);
    }
  }

  lemma NestedEmptyParses(n: nat)
    requires n > 0
    ensures Parse(Braces('{', n) + Braces('}', n)) == Ok(Parsed([], []))
  {
    AfterBraces(n, Braces('}', n));
    EmptyResult(2 * n, Braces('}', n), n);
    assert (Braces('{', n) + Braces('}', n))[0] == '{';
  }

  // ---------- soundness ----------

  /** The next character of a quoted element that does not end here. */
  lemma HeadChar(s: string, elem: string) returns (q: QuotedChar, tail: string)
    requires ScanQuoted(s, elem, false).Some? && s[0] != '"'
    ensures s == CharText(q) + tail && (q.escaped || (q.c != '"' && q.c != '\\'))
  {
    if s[0] == '\\' {
      assert s[1..] != "";
      q, tail := QuotedChar(s[1], true), s[2..];
    } else {
      q, tail := QuotedChar(s[0], false), s[1..];
    }
  }

  lemma {:induction false} QuotedSound(s: string, elem: string) returns (chars: seq<QuotedChar>)
    requires ScanQuoted(s, elem, false).Some?
    ensures ValidItem(Quoted(chars))
    ensures ScanQuoted(s, elem, false).value.0 == elem + CharsValue(chars)
    ensures s == CharsText(chars) + ("\"" + ScanQuoted(s, elem, false).value.1)
    decreases |s|
  {
    if s[0] == '"' {
      chars := [];
      assert elem + CharsValue(chars) == elem;
      assert s == "\"" + s[1..];
    } else {
      hide ScanQuoted, CharsText, CharsValue, CharText;
      var q, tail := HeadChar(s, elem);
      ScanOne(q, tail, elem);
      var rest := QuotedSound(tail, elem + [q.c]);
      CharsCons(q, rest, elem);
      chars := [q] + rest;
      Associative(CharText(q), CharsText(rest), "\"" + ScanQuoted(s, elem, false).value.1);
    }
  }

  /** The whole text was read; only the count of the elements can still be wrong. */
  predicate Finished(r: Outcome) {
    r.Ok? || r == Err(Ragged)
  }

  lemma EndsTooEarly(n: nat, depth: nat, dims: seq<nat>, elems: seq<Element>)
    requires 0 < depth && Counted(depth, dims)
    ensures AtClosing(n, "", depth, dims, elems) == Err(ExpectedClose(n))
    ensures AtElement(n, "", depth, dims, elems) == Err(ExpectedClose(n))
  {
    assert AtClosing(n, "", depth, dims, elems) == AtEnd(n, depth, dims, elems);
  }

  /** An element that the parser takes is a valid item, followed by the rest of the text. */
  lemma ItemSound(n: nat, s: string, depth: nat, dims: seq<nat>, elems: seq<Element>)
    returns (item: Item, rest: string)
    requires |s| <= n && 0 < depth && Counted(depth, dims) && Finished(AtElement(n, s, depth, dims, elems))
    requires s != "" && s[0] != '{'
    ensures ValidItem(item) && s == ItemText(item) + rest && |rest| < |s|
    ensures AtElement(n, s, depth, dims, elems) == AtClosing(n, rest, depth, dims, elems + [ItemValue(item)])
  {
    EndsTooEarly(n, depth, dims, elems);
    if s[0] == '"' {
      var chars := QuotedSound(s[1..], "");
      item, rest := Quoted(chars), ScanQuoted(s[1..], "", false).value.1;
      assert s == "\"" + s[1..];
      assert "" + CharsValue(chars) == CharsValue(chars);
    } else {
      var k := RawLength(s);
      item, rest := Raw(s[..k]), s[k..];
    }
  }

  lemma {:induction false} ItemsSound(n: nat, s: string, dims: seq<nat>, elems: seq<Element>) returns (items: seq<Item>)
    requires |s| <= n && |dims| == 1 && AtElement(n, s, 1, dims, elems).Ok?
    ensures items != [] && ValidItems(items) && s == ItemsText(items)
    ensures AtElement(n, s, 1, dims, elems).value.elems == elems + Values(items)
    decreases |s|
  {
    var item, rest := ItemSound(n, s, 1, dims, elems);
    var more := elems + [ItemValue(item)];
    var tail: seq<Item> := [];
    if rest[0] == ',' {
      tail := ItemsSound(n, rest[1..], Increment(dims, 0), more);
      assert rest == "," + ItemsText(tail);
    } else {
      assert rest[1..] == "";
      assert rest == "}";
      assert more + Values(tail) == more;
    }
    items := [item] + tail;
    ItemsTextCons(item, tail);
    ValuesCons(item, tail, elems);
    ValidCons(item, tail);
  }

  // ---------- one-dimensional arrays ----------

  datatype ScanError = BadText(error: ParseError) | NotLinear(dims: seq<nat>) | NullElement(at: nat)

  /** `scanLinearArray`. */
  function ScanLinear(src: string): Result<seq<Element>, ScanError> {
    match Parse(src)
    case Err(e) => Err(BadText(e))
    case Ok(p) => if |p.dims| > 1 then Err(NotLinear(p.dims)) else Ok(p.elems)
  }

  /** The scanner accepts exactly the linear texts, and returns the values of their items. */
  lemma ScansExactlyLinearTexts(src: string, elems: seq<Element>)
    ensures ScanLinear(src) == Ok(elems) <==> IsLinearText(src, elems)
  {
    if ScanLinear(src) == Ok(elems) {
      LinearSound(src);
    }
    if IsLinearText(src, elems) {
      if items :| items != [] && ValidItems(items) && src == "{" + ItemsText(items) && elems == Values(items) {
        LinearTextParses(items);
      } else {
        var n: nat :| n > 0 && src == Braces('{', n) + Braces('}', n);
        NestedEmptyParses(n);
      }
    }
  }

  lemma LinearSound(src: string)
    requires ScanLinear(src).Ok?
    ensures IsLinearText(src, ScanLinear(src).value)
  {
    var rest := AfterOpen(src);
    var depth := |src| - |rest|;
    OpenBraces(src);
    if rest != "" && rest[0] == '}' {
      EmptyResult(|src|, rest, depth);
      assert depth > 0 && src == Braces('{', depth) + Braces('}', depth);
    } else {
      ElementDims(|src|, rest, depth, Zeros(depth), []);
      assert depth == 1;
      var items := ItemsSound(|src|, rest, Zeros(1), []);
      assert Braces('{', 1) == "{";
      assert [] + Values(items) == Values(items);
      assert src == "{" + ItemsText(items);
    }
  }

  // ---------- string arrays ----------

  predicate IsSpecial(c: char) {
    c == '"' || c == '\\'
  }

  /** Quotes and backslashes get a backslash. */
  function Escape(v: string): (chars: seq<QuotedChar>)
    ensures ValidItem(Quoted(chars))
  {
    seq(|v|, k requires 0 <= k < |v| => QuotedChar(v[k], IsSpecial(v[k])))
  }

  /** No other way to write a quoted element is as short. */
  lemma {:induction false} EscapeIsShortest(v: string, chars: seq<QuotedChar>)
    requires ValidItem(Quoted(chars)) && CharsValue(chars) == v
    ensures |CharsText(Escape(v))| <= |CharsText(chars)|
    ensures |CharsText(Escape(v))| == |CharsText(chars)| ==> chars == Escape(v)
    decreases |v|
  {
    if v != "" {
      var tail := chars[1..];
      assert Escape(v)[1..] == Escape(v[1..]);
      assert CharsValue(tail) == v[1..] && CharsValue(chars)[0] == chars[0].c;
      EscapeIsShortest(v[1..], tail);
      assert chars == [chars[0]] + tail && Escape(v) == [Escape(v)[0]] + Escape(v[1..]);
      assert chars[0].escaped || !IsSpecial(v[0]);
    } else {
      assert chars == [];
    }
  }

  function QuotedItems(a: seq<string>): seq<Item> {
    seq(|a|, k requires 0 <= k < |a| => Quoted(Escape(a[k])))
  }

  /** The text of an array: `{}`, or all elements quoted. */
  function PrintArray(a: seq<string>): string {
    if a == [] then "{}" else "{" + ItemsText(QuotedItems(a))
  }

  function NullAt(elems: seq<Element>): (k: nat)
    ensures k <= |elems|
    ensures forall j :: 0 <= j < k ==> elems[j].Some?
    ensures k < |elems| ==> elems[k].None?
  {
    if elems == [] || elems[0].None? then 0 else 1 + NullAt(elems[1..])
  }

  function StringsOf(elems: seq<Element>): Result<seq<string>, ScanError> {
    if NullAt(elems) < |elems| then Err(NullElement(NullAt(elems)))
    else Ok(seq(|elems|, k requires 0 <= k < |elems| => elems[k].value))
  }

  lemma StringsOfSomes(elems: seq<Element>, a: seq<string>)
    requires |elems| == |a| && forall k :: 0 <= k < |a| ==> elems[k] == Some(a[k])
    ensures StringsOf(elems) == Ok(a)
  {
    assert NullAt(elems) == |elems|;
    assert seq(|elems|, k requires 0 <= k < |elems| => elems[k].value) == a;
  }

  /** `StringArray.scanBytes`: every element must be a string. */
  function ScanStrings(src: string): Result<seq<string>, ScanError> {
    match ScanLinear(src)
    case Err(e) => Err(e)
    case Ok(elems) => StringsOf(elems)
  }

  /** Item `k` is the first unquoted NULL. */
  predicate IsFirstNull(items: seq<Item>, k: nat) {
    k < |items| && items[k] == Raw("NULL") && forall j :: 0 <= j < k ==> items[j] != Raw("NULL")
  }

  /** A list of items is refused exactly for its first unquoted NULL, and otherwise scanned to the
      written texts. */
  lemma ScansWrittenTexts(items: seq<Item>, k: nat)
    requires items != [] && ValidItems(items)
    ensures ScanStrings("{" + ItemsText(items)) == Err(NullElement(k)) <==> IsFirstNull(items, k)
    ensures Raw("NULL") !in items ==>
              ScanStrings("{" + ItemsText(items)) == Ok(seq(|items|, j requires 0 <= j < |items| => WrittenText(items[j])))
  {
    var elems := Values(items);
    LinearTextParses(items);
    assert forall j :: 0 <= j < |items| ==> (elems[j] == None <==> items[j] == Raw("NULL"));
    if Raw("NULL") !in items {
      StringsOfSomes(elems, seq(|items|, j requires 0 <= j < |items| => WrittenText(items[j])));
    }
    if IsFirstNull(items, k) {
      assert elems[k] == None && NullAt(elems) == k;
    }
  }

  /** Scanning what was printed gives the array back, whatever its strings contain. */
  lemma RoundTrip(a: seq<string>)
    ensures ScanStrings(PrintArray(a)) == Ok(a)
  {
    if a == [] {
      NestedEmptyParses(1);
      assert Braces('{', 1) + Braces('}', 1) == "{}";
      StringsOfSomes([], a);
    } else {
      var items := QuotedItems(a);
      forall k | 0 <= k < |items| ensures ValidItem(items[k]) {}
      LinearTextParses(items);
      forall k | 0 <= k < |a| ensures Values(items)[k] == Some(a[k]) {
        assert CharsValue(Escape(a[k])) == a[k];
      }
      StringsOfSomes(Values(items), a);
    }
  }

  /** An array without elements is printed as the shortest text that scans to it. */
  lemma EmptyPrintIsShortest(src: string)
    requires ScanStrings(src) == Ok([])
    ensures |PrintArray([])| <= |src|
  {
    ScansExactlyLinearTexts(src, []);
    assert StringsOf(ScanLinear(src).value).value == [];
  }

  /** A text that is no linear array is refused with the parser's reason. */
  lemma ScanErrors(src: string, e: ParseError, dims: seq<nat>)
    ensures ScanStrings(src) == Err(BadText(e)) <==> Parse(src) == Err(e)
    ensures ScanStrings(src) == Err(NotLinear(dims)) <==> ScanLinear(src) == Err(NotLinear(dims))
  {}

  /** Different arrays have different texts. */
  lemma PrintingIsInjective(a: seq<string>, b: seq<string>)
    requires PrintArray(a) == PrintArray(b)
    ensures a == b
  {
    RoundTrip(a);
    RoundTrip(b);
  }

  // ---------- printing and scanning as the code runs them ----------

  function IndexSpecial(v: string): (i: nat)
    ensures i <= |v|
    ensures forall j :: 0 <= j < i ==> !IsSpecial(v[j])
    ensures i < |v| ==> IsSpecial(v[i])
  {
    if v == "" || IsSpecial(v[0]) then 0 else 1 + IndexSpecial(v[1..])
  }

  lemma EscapeCons(v: string)
    requires v != ""
    ensures CharsText(Escape(v)) == CharText(QuotedChar(v[0], IsSpecial(v[0]))) + CharsText(Escape(v[1..]))
  {
    assert Escape(v)[1..] == Escape(v[1..]);
  }

  /** A stretch without special characters is printed as it is. */
  lemma {:induction false} EscapePrefix(v: string, i: nat)
    requires i <= |v| && forall j :: 0 <= j < i ==> !IsSpecial(v[j])
    ensures CharsText(Escape(v)) == v[..i] + CharsText(Escape(v[i..]))
  {
    if i == 0 {
      assert v[0..] == v && v[..0] == "";
    } else {
      EscapePrefix(v[1..], i - 1);
      EscapeCons(v);
      assert v[1..][i - 1..] == v[i..] && v[..i] == [v[0]] + v[1..][..i - 1];
      Associative([v[0]], v[1..][..i - 1], CharsText(Escape(v[i..])));
    }
  }

  lemma EscapeStep(v: string, i: nat)
    requires i < |v| && IsSpecial(v[i]) && forall j :: 0 <= j < i ==> !IsSpecial(v[j])
    ensures CharsText(Escape(v)) == v[..i] + ['\\', v[i]] + CharsText(Escape(v[i + 1..]))
  {
    EscapePrefix(v, i);
    EscapeCons(v[i..]);
    assert v[i..][1..] == v[i + 1..];
    Associative(v[..i], ['\\', v[i]], CharsText(Escape(v[i + 1..])));
  }

  /** `appendArrayQuotedBytes`. */
  method AppendQuoted(b: string, v: string) returns (r: string)
    ensures r == b + ItemText(Quoted(Escape(v)))
  {
    r := b + "\"";
    var rest := v;
    ghost var all := r + CharsText(Escape(v));
    while true
      invariant all == r + CharsText(Escape(rest))
      decreases |rest|
    {
      var i := IndexSpecial(rest);
      if i == |rest| {
        EscapePrefix(rest, i);
        assert rest[..i] == rest && rest[i..] == "" && CharsText(Escape("")) == "";
        r := r + rest;
        break;
      }
      EscapeStep(rest, i);
      Associative(r, rest[..i] + ['\\', rest[i]], CharsText(Escape(rest[i + 1..])));
      r := r + (rest[..i] + ['\\', rest[i]]);
      rest := rest[i + 1..];
    }
    Associative(b, "\"", CharsText(Escape(v)));
    Associative(b, "\"" + CharsText(Escape(v)), "\"");
    Associative("\"", CharsText(Escape(v)), "\"");
    r := r + "\"";
  }

  /** What is still to be printed behind some elements. */
  ghost function Remaining(a: seq<string>): string {
    if a == [] then "}" else "," + ItemsText(QuotedItems(a))
  }

  lemma RemainingCons(a: seq<string>, i: nat)
    requires i < |a|
    ensures ItemsText(QuotedItems(a[i..])) == ItemText(Quoted(Escape(a[i]))) + Remaining(a[i + 1..])
  {
    assert QuotedItems(a[i..])[1..] == QuotedItems(a[i + 1..]);
  }

  lemma RemainingStep(b: string, a: seq<string>, i: nat)
    requires i < |a|
    ensures b + Remaining(a[i..]) == b + "," + ItemText(Quoted(Escape(a[i]))) + Remaining(a[i + 1..])
  {
    RemainingCons(a, i);
    var item, rest := ItemText(Quoted(Escape(a[i]))), Remaining(a[i + 1..]);
    Associative(b, ",", item + rest);
    Associative(b + ",", item, rest);
  }

  lemma PrintStart(a: seq<string>)
    requires a != []
    ensures PrintArray(a) == "{" + ItemText(Quoted(Escape(a[0]))) + Remaining(a[1..])
  {
    RemainingCons(a, 0);
    assert a[0..] == a;
    Associative("{", ItemText(Quoted(Escape(a[0]))), Remaining(a[1..]));
  }

  /** `StringArray.Value`; a nil array has no text. */
  method Value(a: Option<seq<string>>) returns (text: Option<string>)
    ensures a.None? ==> text == None
    ensures a.Some? ==> text == Some(PrintArray(a.value))
  {
    if a.None? {
      return None;
    }
    var strings := a.value;
    if |strings| == 0 {
      return Some("{}");
    }
    var b := AppendQuoted("{", strings[0]);
    PrintStart(strings);
    var i := 1;
    while i < |strings|
      invariant 1 <= i <= |strings|
      invariant PrintArray(strings) == b + Remaining(strings[i..])
    {
      RemainingStep(b, strings, i);
      b := AppendQuoted(b + ",", strings[i]);
      i := i + 1;
    }
    assert strings[i..] == [];
    return Some(b + "}");
  }

  /** `StringArray.scanBytes`. */
  method ScanBytes(src: string) returns (r: Result<seq<string>, ScanError>)
    ensures r == ScanStrings(src)
  {
    var parsed := ParseArray(src);
    if parsed.Err? {
      return Err(BadText(parsed.error));
    }
    if |parsed.value.dims| > 1 {
      return Err(NotLinear(parsed.value.dims));
    }
    var elems := parsed.value.elems;
    var strings: seq<string> := [];
    while |strings| < |elems|
      invariant |strings| <= |elems|
      invariant forall k :: 0 <= k < |strings| ==> elems[k] == Some(strings[k])
    {
      if elems[|strings|].None? {
        assert NullAt(elems) == |strings|;
        return Err(NullElement(|strings|));
      }
      strings := strings + [elems[|strings|].value];
    }
    StringsOfSomes(elems, strings);
    return Ok(strings);
  }
}
