/** Nested arrays: exactly which texts the array parser accepts, and what the dimensions it
    reports then say. */
module ArrayShapes {
  import opened Common
  import opened ArrayText
  import opened ArrayGrammar

  datatype Tree = Leaf(item: Item) | Node(children: seq<Tree>)

  function Text(t: Tree): string {
    match t
    case Leaf(item) => ItemText(item)
    case Node(children) => "{" + ListText(children)
  }

  /** The parts of one node with their delimiters and the closing brace. */
  function ListText(ts: seq<Tree>): string {
    if ts == [] then "}" else Text(ts[0]) + (if |ts| == 1 then "}" else "," + ListText(ts[1..]))
  }

  function Leaves(t: Tree): seq<Element> {
    match t
    case Leaf(item) => [ItemValue(item)]
    case Node(children) => ListLeaves(children)
  }

  function ListLeaves(ts: seq<Tree>): seq<Element> {
    if ts == [] then [] else Leaves(ts[0]) + ListLeaves(ts[1..])
  }

  // ---------- what is accepted ----------

  /** No leaf stands deeper than `levels`, no node is empty, and every item is valid. */
  predicate Fits(t: Tree, levels: nat) {
    match t
    case Leaf(item) => ValidItem(item)
    case Node(children) => levels > 0 && children != [] && AllFit(children, levels - 1)
  }

  predicate AllFit(ts: seq<Tree>, levels: nat) {
    forall c :: c in ts ==> Fits(c, levels)
  }

  /** How deep the first leaf stands. */
  function LeftDepth(t: Tree): nat {
    match t
    case Leaf(_) => 0
    case Node(children) => if children == [] then 1 else 1 + LeftDepth(children[0])
  }

  /** The parts of each node of one level, in the order of the text. */
  function Level(t: Tree, k: nat): seq<seq<Tree>> {
    match t
    case Leaf(_) => []
    case Node(children) => if k == 0 then [children] else ListLevel(children, k - 1)
  }

  function ListLevel(ts: seq<Tree>, k: nat): seq<seq<Tree>> {
    if ts == [] then [] else Level(ts[0], k) + ListLevel(ts[1..], k)
  }

  /** The number of parts of the last node of a level; `was` when the level has no node. */
  function LastWidth(level: seq<seq<Tree>>, was: nat): nat {
    if level == [] then was else |level[|level| - 1]|
  }

  /** The dimensions reported for an array: per level, the number of parts of its last node. */
  function Dimensions(t: Tree): seq<nat> {
    seq(LeftDepth(t), k requires 0 <= k < LeftDepth(t) => LastWidth(Level(t, k), 0))
  }

  /** An array in whose text no leaf stands deeper than the first one. */
  predicate IsArray(t: Tree) {
    t.Node? && Fits(t, LeftDepth(t))
  }

  predicate Positive(dims: seq<nat>) {
    forall k :: 0 <= k < |dims| ==> dims[k] > 0
  }

  /** The text of an array whose every dimension divides the number of its elements. */
  ghost predicate IsArrayText(src: string, dims: seq<nat>, elems: seq<Element>) {
    exists t {:trigger Text(t)} ::
      && IsArray(t) && src == Text(t) && elems == Leaves(t) && dims == Dimensions(t)
      && Positive(dims) && AllDivide(dims, |elems|)
  }

  ghost predicate IsEmptyText(src: string, dims: seq<nat>, elems: seq<Element>) {
    dims == [] && elems == [] && exists n: nat :: n > 0 && src == Braces('{', n) + Braces('}', n)
  }

  // ---------- levels ----------

  lemma {:induction false} LevelsAreWide(t: Tree, levels: nat, k: nat)
    requires Fits(t, levels)
    ensures forall parts :: parts in Level(t, k) ==> parts != []
  {
    if t.Node? && k > 0 {
      ListLevelsAreWide(t.children, levels - 1, k - 1);
    }
  }

  lemma {:induction false} ListLevelsAreWide(ts: seq<Tree>, levels: nat, k: nat)
    requires AllFit(ts, levels)
    ensures forall parts :: parts in ListLevel(ts, k) ==> parts != []
  {
    if ts != [] {
      assert ts[0] in ts;
      LevelsAreWide(ts[0], levels, k);
      ListLevelsAreWide(ts[1..], levels, k);
    }
  }

  lemma {:induction false} LeftLevels(t: Tree, k: nat)
    requires k < LeftDepth(t)
    ensures t.Node? && (k > 0 ==> t.children != [])
    ensures Level(t, k) != []
  {
    if k > 0 {
      LeftLevels(t.children[0], k - 1);
    }
  }

  // ---------- counters ----------

  /** The counters after a part has been read at level `depth`: a level that got no new node keeps
      its counter. */
  function Counters(cur: seq<nat>, depth: nat, t: Tree): (r: seq<nat>)
    ensures |r| == |cur|
  {
    seq(|cur|, k requires 0 <= k < |cur| => if k < depth then cur[k] else LastWidth(Level(t, k - depth), cur[k]))
  }

  /** The counters after some more parts of the open node of level `depth - 1` have been read. */
  function ListCounters(cur: seq<nat>, depth: nat, ts: seq<Tree>): seq<nat>
    requires 0 < depth
  {
    seq(|cur|, k requires 0 <= k < |cur| =>
      if k < depth - 1 then cur[k]
      else if k == depth - 1 then cur[k] + |ts|
      else LastWidth(ListLevel(ts, k - depth), cur[k]))
  }

  lemma CountersOfLeaf(cur: seq<nat>, depth: nat, item: Item)
    ensures Counters(cur, depth, Leaf(item)) == cur
  {}

  lemma CountersOfNode(cur: seq<nat>, depth: nat, ts: seq<Tree>)
    requires depth < |cur|
    ensures Counters(cur, depth, Node(ts)) == ListCounters(cur[depth := 0], depth + 1, ts)
  {}

  /** What reading a list amounts to, by its first part and the others. */
  lemma {:induction false} ListSplits(cur: seq<nat>, depth: nat, ts: seq<Tree>, elems: seq<Element>)
    requires 0 < depth <= |cur| && ts != []
    ensures ListCounters(cur, depth, ts) ==
            ListCounters(Increment(Counters(cur, depth, ts[0]), depth - 1), depth, ts[1..])
    ensures elems + ListLeaves(ts) == elems + Leaves(ts[0]) + ListLeaves(ts[1..])
  {}

  lemma ListOfOne(cur: seq<nat>, depth: nat, t: Tree, elems: seq<Element>)
    requires 0 < depth <= |cur|
    ensures ListCounters(cur, depth, [t]) == Increment(Counters(cur, depth, t), depth - 1)
    ensures elems + ListLeaves([t]) == elems + Leaves(t)
  {
    assert ListLeaves([t]) == Leaves(t) + ListLeaves([t][1..]) == Leaves(t);
    assert forall k :: ListLevel([t], k) == Level(t, k) + ListLevel([t][1..], k) == Level(t, k);
  }

  lemma CountersCounted(cur: seq<nat>, depth: nat, t: Tree, levels: nat)
    requires Counted(depth, cur) && Fits(t, levels)
    ensures Counted(depth, Counters(cur, depth, t))
  {
    forall k | depth <= k < |cur| ensures Counters(cur, depth, t)[k] > 0 {
      LevelsAreWide(t, levels, k - depth);
      var level := Level(t, k - depth);
      assert level != [] ==> level[|level| - 1] in level;
    }
  }

  // ---------- completeness ----------

  lemma EndsLevel(n: nat, rest: string, depth: nat, dims: seq<nat>, elems: seq<Element>)
    requires |rest| < n && 0 < depth && Counted(depth, dims)
    ensures AtClosing(n, "}" + rest, depth, dims, elems) == AtClosing(n, rest, depth - 1, Increment(dims, depth - 1), elems)
  {
    assert ("}" + rest)[1..] == rest;
  }

  lemma NextPart(n: nat, s: string, depth: nat, dims: seq<nat>, elems: seq<Element>)
    requires |s| < n && 0 < depth && Counted(depth, dims)
    ensures AtClosing(n, "," + s, depth, dims, elems) == AtElement(n, s, depth, Increment(dims, depth - 1), elems)
  {
    assert ("," + s)[1..] == s;
  }

  lemma OpensLevel(n: nat, s: string, depth: nat, dims: seq<nat>, elems: seq<Element>)
    requires |s| < n && 0 < depth < |dims| && Counted(depth, dims)
    ensures AtElement(n, "{" + s, depth, dims, elems) == AtElement(n, s, depth + 1, dims[depth := 0], elems)
  {
    assert ("{" + s)[1..] == s;
  }

  /** Behind the first part comes the rest of its node. */
  function ListRest(ts: seq<Tree>, rest: string): string
    requires ts != []
  {
    if |ts| == 1 then "}" + rest else "," + (ListText(ts[1..]) + rest)
  }

  lemma ListTextCons(ts: seq<Tree>, rest: string)
    requires ts != []
    ensures ListText(ts) + rest == Text(ts[0]) + ListRest(ts, rest)
  {
    if |ts| == 1 {
      Associative(Text(ts[0]), "}", rest);
    } else {
      Associative(Text(ts[0]), "," + ListText(ts[1..]), rest);
      Associative(",", ListText(ts[1..]), rest);
    }
  }

  /** Wherever a part stands, its elements are read and the counters below its level are set. */
  lemma {:induction false} ReadsTree(n: nat, t: Tree, rest: string, depth: nat, cur: seq<nat>, elems: seq<Element>)
    requires 0 < depth && Counted(depth, cur) && Fits(t, |cur| - depth)
    requires rest != "" && EndsElement(rest[0]) && |Text(t) + rest| <= n
    ensures Counted(depth, Counters(cur, depth, t))
    ensures AtElement(n, Text(t) + rest, depth, cur, elems) ==
            AtClosing(n, rest, depth, Counters(cur, depth, t), elems + Leaves(t))
    decreases t, 0
  {
    CountersCounted(cur, depth, t, |cur| - depth);
    match t {
      case Leaf(item) =>
        ReadsItem(n, item, rest, depth, cur, elems);
        CountersOfLeaf(cur, depth, item);
      case Node(children) =>
        Associative("{", ListText(children), rest);
        OpensLevel(n, ListText(children) + rest, depth, cur, elems);
        ReadsList(n, children, rest, depth + 1, cur[depth := 0], elems);
        CountersOfNode(cur, depth, children);
    }
  }

  /** Behind one part its node ends, or the next part is read. */
  lemma AfterPart(n: nat, ts: seq<Tree>, rest: string, depth: nat, read: seq<nat>, elems: seq<Element>)
    requires 0 < depth && Counted(depth, read) && ts != [] && |ListRest(ts, rest)| <= n
    ensures |ts| == 1 ==>
              AtClosing(n, ListRest(ts, rest), depth, read, elems) ==
              AtClosing(n, rest, depth - 1, Increment(read, depth - 1), elems)
    ensures |ts| > 1 ==>
              |ListText(ts[1..]) + rest| <= n &&
              AtClosing(n, ListRest(ts, rest), depth, read, elems) ==
              AtElement(n, ListText(ts[1..]) + rest, depth, Increment(read, depth - 1), elems)
  {
    if |ts| == 1 {
      EndsLevel(n, rest, depth, read, elems);
    } else {
      NextPart(n, ListText(ts[1..]) + rest, depth, read, elems);
    }
  }

  /** The first part of an open node is read. */
  lemma {:induction false} ReadsFirst(n: nat, ts: seq<Tree>, rest: string, depth: nat, cur: seq<nat>, elems: seq<Element>)
    requires 0 < depth && Counted(depth, cur) && ts != [] && AllFit(ts, |cur| - depth)
    requires |ListText(ts) + rest| <= n
    ensures |ListRest(ts, rest)| <= n && Counted(depth, Counters(cur, depth, ts[0]))
    ensures AtElement(n, ListText(ts) + rest, depth, cur, elems) ==
            AtClosing(n, ListRest(ts, rest), depth, Counters(cur, depth, ts[0]), elems + Leaves(ts[0]))
    decreases ts, 0
  {
    assert ts[0] in ts;
    ListTextCons(ts, rest);
    ReadsTree(n, ts[0], ListRest(ts, rest), depth, cur, elems);
  }

  /** The parts of an open node are read up to its closing brace. */
  lemma {:induction false} ReadsList(n: nat, ts: seq<Tree>, rest: string, depth: nat, cur: seq<nat>, elems: seq<Element>)
    requires 0 < depth && Counted(depth, cur) && ts != [] && AllFit(ts, |cur| - depth)
    requires |ListText(ts) + rest| <= n
    ensures Counted(depth - 1, ListCounters(cur, depth, ts))
    ensures AtElement(n, ListText(ts) + rest, depth, cur, elems) ==
            AtClosing(n, rest, depth - 1, ListCounters(cur, depth, ts), elems + ListLeaves(ts))
    decreases ts, 1
  {
    hide AtElement, AtClosing, Fits, ListText, ListRest, ListLeaves, Leaves, ListCounters, Counters;
    ReadsFirst(n, ts, rest, depth, cur, elems);
    var read, more := Counters(cur, depth, ts[0]), elems + Leaves(ts[0]);
    AfterPart(n, ts, rest, depth, read, more);
    if |ts| == 1 {
      assert ts == [ts[0]];
      ListOfOne(cur, depth, ts[0], elems);
    } else {
      ListSplits(cur, depth, ts, elems);
      ReadsList(n, ts[1..], rest, depth, Increment(read, depth - 1), more);
    }
  }

  // ---------- soundness ----------

  /** Where an element is expected, a successful parse reads a whole part. */
  lemma {:induction false} TreeSound(n: nat, s: string, depth: nat, cur: seq<nat>, elems: seq<Element>)
    returns (t: Tree, rest: string)
    requires |s| <= n && 0 < depth && Counted(depth, cur) && Finished(AtElement(n, s, depth, cur, elems))
    ensures Fits(t, |cur| - depth) && s == Text(t) + rest && |rest| < |s|
    ensures Counted(depth, Counters(cur, depth, t))
    ensures AtElement(n, s, depth, cur, elems) ==
            AtClosing(n, rest, depth, Counters(cur, depth, t), elems + Leaves(t))
    decreases |s|, 0
  {
    EndsTooEarly(n, depth, cur, elems);
    if s[0] == '{' {
      assert depth == |cur| ==> AtElement(n, s, depth, cur, elems) == Err(Unexpected(n - |s|));
      var ts;
      ts, rest := ListSound(n, s[1..], depth + 1, cur[depth := 0], elems);
      t := Node(ts);
      assert s == "{" + (ListText(ts) + rest);
      Associative("{", ListText(ts), rest);
      CountersOfNode(cur, depth, ts);
    } else {
      var item;
      item, rest := ItemSound(n, s, depth, cur, elems);
      t := Leaf(item);
      CountersOfLeaf(cur, depth, item);
    }
    CountersCounted(cur, depth, t, |cur| - depth);
  }

  lemma {:induction false} ListSound(n: nat, s: string, depth: nat, cur: seq<nat>, elems: seq<Element>)
    returns (ts: seq<Tree>, rest: string)
    requires |s| <= n && 0 < depth && Counted(depth, cur) && Finished(AtElement(n, s, depth, cur, elems))
    ensures ts != [] && AllFit(ts, |cur| - depth) && s == ListText(ts) + rest && |rest| < |s|
    ensures Counted(depth - 1, ListCounters(cur, depth, ts))
    ensures AtElement(n, s, depth, cur, elems) ==
            AtClosing(n, rest, depth - 1, ListCounters(cur, depth, ts), elems + ListLeaves(ts))
    decreases |s|, 1
  {
    var t, behind := TreeSound(n, s, depth, cur, elems);
    var read, more := Counters(cur, depth, t), elems + Leaves(t);
    EndsTooEarly(n, depth, read, more);
    if behind[0] == ',' {
      var tail;
      tail, rest := ListSound(n, behind[1..], depth, Increment(read, depth - 1), more);
      ts := [t] + tail;
      assert ts[1..] == tail;
      assert behind == ListRest(ts, rest);
      ListSplits(cur, depth, ts, elems);
    } else {
      ts, rest := [t], behind[1..];
      assert behind == ListRest(ts, rest);
      ListOfOne(cur, depth, t, elems);
    }
    ListTextCons(ts, rest);
  }

  // ---------- the leading braces ----------

  /** The text of an array opens with one brace per level, and then its first element. */
  lemma {:induction false} OpensWithBraces(t: Tree, levels: nat) returns (rest: string)
    requires Fits(t, levels)
    ensures Text(t) == Braces('{', LeftDepth(t)) + rest
    ensures rest != "" && rest[0] != '{' && rest[0] != '}'
    decreases t
  {
    match t {
      case Leaf(item) =>
        rest := ItemText(item);
        assert Braces('{', 0) + rest == rest;
      case Node(children) =>
        var inner := OpensWithBraces(children[0], levels - 1);
        var d := LeftDepth(children[0]);
        ListTextCons(children, "");
        assert ListText(children) + "" == ListText(children);
        rest := inner + ListRest(children, "");
        Associative(Braces('{', d), inner, ListRest(children, ""));
        assert Braces('{', d + 1) == "{" + Braces('{', d);
        Associative("{", Braces('{', d), rest);
    }
  }

  /** Counters that lead to fresh ones: levels not yet opened hold anything positive. */
  function Unopened(depth: nat, levels: nat): (r: seq<nat>)
    requires depth <= levels
    ensures Counted(depth, r)
  {
    seq(levels, k => if k < depth then 0 else 1)
  }

  /** Reading the leading braces one by one leads to where the first element starts. */
  lemma {:induction false} OpensOneByOne(n: nat, rest: string, depth: nat, levels: nat)
    requires 0 < depth <= levels && |Braces('{', levels - depth) + rest| <= n
    ensures AtElement(n, Braces('{', levels - depth) + rest, depth, Unopened(depth, levels), []) ==
            AtElement(n, rest, levels, Zeros(levels), [])
    decreases levels - depth
  {
    var s := Braces('{', levels - depth) + rest;
    if depth < levels {
      assert s[0] == '{' && s[1..] == Braces('{', levels - depth - 1) + rest;
      assert Unopened(depth, levels)[depth := 0] == Unopened(depth + 1, levels);
      OpensOneByOne(n, rest, depth + 1, levels);
    } else {
      assert s == rest && Unopened(levels, levels) == Zeros(levels);
    }
  }

  /** A text that opens with braces and then an element is parsed like the inside of its first
      brace. */
  lemma ParsesInside(levels: nat, rest: string)
    requires 0 < levels && rest != "" && rest[0] != '{' && rest[0] != '}'
    ensures var src := Braces('{', levels) + rest;
            |src[1..]| <= |src| && Parse(src) == AtElement(|src|, src[1..], 1, Unopened(1, levels), [])
  {
    var src := Braces('{', levels) + rest;
    AfterBraces(levels, rest);
    assert src[0] == '{' && src[1..] == Braces('{', levels - 1) + rest;
    OpensOneByOne(|src|, rest, 1, levels);
  }

  /** Reading a whole array sets all counters to its dimensions. */
  lemma CountersOfArray(t: Tree)
    requires IsArray(t)
    ensures ListCounters(Unopened(1, LeftDepth(t)), 1, t.children) == Dimensions(t)
    ensures Positive(Dimensions(t))
  {
    var levels := LeftDepth(t);
    assert Unopened(0, levels)[0 := 0] == Unopened(1, levels);
    CountersOfNode(Unopened(0, levels), 0, t.children);
    forall k | 0 <= k < levels
      ensures Counters(Unopened(0, levels), 0, t)[k] == Dimensions(t)[k] > 0
    {
      LeftLevels(t, k);
      LevelsAreWide(t, levels, k);
      assert Level(t, k)[|Level(t, k)| - 1] in Level(t, k);
    }
  }

  // ---------- whole texts ----------

  /** The text of an array is read as a whole; only the count of its elements can still fail. */
  lemma ArrayIsRead(t: Tree)
    requires IsArray(t)
    ensures Positive(Dimensions(t))
    ensures Parse(Text(t)) ==
            if AllDivide(Dimensions(t), |Leaves(t)|) then Ok(Parsed(Dimensions(t), Leaves(t))) else Err(Ragged)
  {
    var src := Text(t);
    var rest := OpensWithBraces(t, LeftDepth(t));
    ParsesInside(LeftDepth(t), rest);
    assert src[1..] == ListText(t.children) + "";
    ReadsList(|src|, t.children, "", 1, Unopened(1, LeftDepth(t)), []);
    assert [] + ListLeaves(t.children) == Leaves(t);
    CountersOfArray(t);
  }

  /** A text with elements that is parsed is the text of an array. */
  lemma ArraySound(src: string, levels: nat, rest: string) returns (t: Tree)
    requires 0 < levels && rest != "" && rest[0] != '{' && rest[0] != '}'
    requires src == Braces('{', levels) + rest && Finished(Parse(src))
    ensures IsArray(t) && src == Text(t)
  {
    ParsesInside(levels, rest);
    var ts, behind := ListSound(|src|, src[1..], 1, Unopened(1, levels), []);
    t := Node(ts);
    assert behind == "";
    assert ListText(ts) + behind == ListText(ts);
    assert src == "{" + src[1..];
    var inner := OpensWithBraces(t, levels);
    AfterBraces(levels, rest);
    AfterBraces(LeftDepth(t), inner);
    assert |src| - |AfterOpen(src)| == levels;
  }

  /** A text that is read to its end is nested empty braces or the text of an array. */
  lemma FinishedIsArray(src: string) returns (t: Tree)
    requires Finished(Parse(src))
    ensures (Parse(src) == Ok(Parsed([], [])) && IsEmptyText(src, [], [])) || (IsArray(t) && src == Text(t))
  {
    var rest := AfterOpen(src);
    var levels := |src| - |rest|;
    OpenBraces(src);
    t := Node([]);
    if rest != "" && rest[0] == '}' {
      EmptyResult(|src|, rest, levels);
    } else if rest != "" {
      t := ArraySound(src, levels, rest);
    }
  }

  /** The parser accepts exactly `{}` with any nesting, and the texts of arrays in which no leaf
      stands deeper than the first and whose dimensions divide the number of elements. A dimension
      is the width of the last node of its level, whatever the nodes before it look like. */
  lemma ParsesExactlyArrays(src: string, dims: seq<nat>, elems: seq<Element>)
    ensures Parse(src) == Ok(Parsed(dims, elems)) <==>
              IsEmptyText(src, dims, elems) || IsArrayText(src, dims, elems)
  {
    if Parse(src) == Ok(Parsed(dims, elems)) {
      var t := FinishedIsArray(src);
      if IsArray(t) && src == Text(t) {
        ArrayIsRead(t);
      }
    } else if IsEmptyText(src, dims, elems) {
      var n: nat :| n > 0 && src == Braces('{', n) + Braces('}', n);
      NestedEmptyParses(n);
    } else if IsArrayText(src, dims, elems) {
      var t :| IsArray(t) && src == Text(t) && elems == Leaves(t) && dims == Dimensions(t)
               && Positive(dims) && AllDivide(dims, |elems|);
      ArrayIsRead(t);
    }
  }

  /** The text of an array is refused for its counts exactly when some dimension does not divide the
      number of its elements. */
  lemma RaggedIff(src: string)
    ensures Parse(src) == Err(Ragged) <==>
              exists t {:trigger Text(t)} ::
                IsArray(t) && src == Text(t) && Positive(Dimensions(t)) && !AllDivide(Dimensions(t), |Leaves(t)|)
  {
    if Parse(src) == Err(Ragged) {
      var t := FinishedIsArray(src);
      ArrayIsRead(t);
    }
    if t :| IsArray(t) && src == Text(t) && Positive(Dimensions(t)) && !AllDivide(Dimensions(t), |Leaves(t)|) {
      ArrayIsRead(t);
    }
  }

  /** The linear scanner refuses exactly the arrays of two or more dimensions for their shape. */
  lemma NotLinearIff(src: string, dims: seq<nat>)
    ensures ScanLinear(src) == Err(NotLinear(dims)) <==>
              |dims| > 1 && exists elems {:trigger IsArrayText(src, dims, elems)} :: IsArrayText(src, dims, elems)
  {
    if ScanLinear(src) == Err(NotLinear(dims)) {
      ParsesExactlyArrays(src, dims, Parse(src).value.elems);
    }
    if |dims| > 1 {
      if elems :| IsArrayText(src, dims, elems) {
        ParsesExactlyArrays(src, dims, elems);
      }
    }
  }

  // ---------- rectangular arrays ----------

  /** All parts of one level have the same dimensions. */
  predicate Rectangular(t: Tree, dims: seq<nat>) {
    match t
    case Leaf(item) => dims == [] && ValidItem(item)
    case Node(children) =>
      && dims != [] && |children| == dims[0] && dims[0] > 0
      && forall c :: c in children ==> Rectangular(c, dims[1..])
  }

  lemma {:induction false} RectangularFits(t: Tree, dims: seq<nat>)
    requires Rectangular(t, dims)
    ensures Fits(t, |dims|) && LeftDepth(t) == |dims|
  {
    if t.Node? {
      forall c | c in t.children ensures Fits(c, |dims| - 1) && LeftDepth(c) == |dims| - 1 {
        RectangularFits(c, dims[1..]);
      }
    }
  }

  lemma {:induction false} RectangularLevel(t: Tree, dims: seq<nat>, k: nat)
    requires Rectangular(t, dims) && k < |dims|
    ensures forall parts :: parts in Level(t, k) ==> |parts| == dims[k]
  {
    if k > 0 {
      RectangularListLevel(t.children, dims[1..], k - 1);
    }
  }

  lemma {:induction false} RectangularListLevel(ts: seq<Tree>, dims: seq<nat>, k: nat)
    requires (forall c :: c in ts ==> Rectangular(c, dims)) && k < |dims|
    ensures forall parts :: parts in ListLevel(ts, k) ==> |parts| == dims[k]
  {
    if ts != [] {
      assert ts[0] in ts;
      RectangularLevel(ts[0], dims, k);
      RectangularListLevel(ts[1..], dims, k);
    }
  }

  lemma RectangularDimensions(t: Tree, dims: seq<nat>)
    requires Rectangular(t, dims)
    ensures Dimensions(t) == dims
  {
    RectangularFits(t, dims);
    forall k | 0 <= k < |dims| ensures Dimensions(t)[k] == dims[k] {
      LeftLevels(t, k);
      RectangularLevel(t, dims, k);
      assert Level(t, k)[|Level(t, k)| - 1] in Level(t, k);
    }
  }

  function Product(dims: seq<nat>): nat {
    if dims == [] then 1 else dims[0] * Product(dims[1..])
  }

  lemma {:induction false} LeafCount(t: Tree, dims: seq<nat>)
    requires Rectangular(t, dims)
    ensures |Leaves(t)| == Product(dims)
  {
    if t.Node? {
      ListLeafCount(t.children, dims[1..]);
    }
  }

  lemma {:induction false} ListLeafCount(ts: seq<Tree>, dims: seq<nat>)
    requires forall c :: c in ts ==> Rectangular(c, dims)
    ensures |ListLeaves(ts)| == |ts| * Product(dims)
  {
    if ts != [] {
      assert ts[0] in ts;
      LeafCount(ts[0], dims);
      ListLeafCount(ts[1..], dims);
      Distribute(|ts| - 1, 1, Product(dims));
    }
  }

  lemma Distribute(a: int, b: int, c: int)
    ensures (a + b) * c == a * c + b * c
  {}

  lemma Regroup(a: int, b: int, c: int)
    ensures a * (b * c) == (a * b) * c
  {}

  /** A product is a multiple of each of its factors. */
  lemma {:induction false} DimensionDividesProduct(dims: seq<nat>, k: nat) returns (quotient: nat)
    requires k < |dims|
    ensures Product(dims) == quotient * dims[k]
  {
    if k == 0 {
      quotient := Product(dims[1..]);
    } else {
      var q := DimensionDividesProduct(dims[1..], k - 1);
      quotient := dims[0] * q;
      Regroup(dims[0], q, dims[k]);
    }
  }

  lemma AtLeastOnce(k: int, b: nat)
    requires k > 0
    ensures k * b >= b
  {
    Distribute(k - 1, 1, b);
  }

  /** A remainder below `b` is not a multiple of it, unless it is zero. */
  lemma MultipleDivides(a: nat, q: nat, b: nat)
    requires b > 0 && a == q * b
    ensures a % b == 0
  {
    var d, r := q - a / b, a % b;
    Distribute(d, a / b, b);
    assert r == d * b;
    if d > 0 {
      AtLeastOnce(d, b);
    } else if d < 0 {
      Distribute(d, -d, b);
      AtLeastOnce(-d, b);
    }
  }

  /** Every rectangular array of at least one dimension is parsed to its dimensions and to the
      values of its elements in order. */
  lemma RectangularParses(t: Tree, dims: seq<nat>)
    requires t.Node? && Rectangular(t, dims)
    ensures Parse(Text(t)) == Ok(Parsed(dims, Leaves(t)))
  {
    RectangularFits(t, dims);
    RectangularDimensions(t, dims);
    ArrayIsRead(t);
    LeafCount(t, dims);
    forall k | 0 <= k < |dims| ensures |Leaves(t)| % dims[k] == 0 {
      var q := DimensionDividesProduct(dims, k);
      MultipleDivides(|Leaves(t)|, q, dims[k]);
    }
  }

  // ---------- not only rectangular arrays ----------

  /** Two items, the first of them in an array of its own. */
  function Uneven(p: Item, q: Item): Tree {
    Node([Node([Leaf(p)]), Leaf(q)])
  }

  lemma OneLeaf(item: Item)
    ensures ListText([Leaf(item)]) == ItemText(item) + "}"
    ensures ListLeaves([Leaf(item)]) == [ItemValue(item)]
    ensures forall k :: ListLevel([Leaf(item)], k) == []
    ensures LeftDepth(Node([Leaf(item)])) == 1 && (ValidItem(item) ==> AllFit([Leaf(item)], 0))
  {
    assert [Leaf(item)][1..] == [];
    assert Leaves([Leaf(item)][0]) == [ItemValue(item)];
  }

  lemma UnevenShape(p: Item, q: Item)
    requires ValidItem(p) && ValidItem(q)
    ensures IsArray(Uneven(p, q)) && Dimensions(Uneven(p, q)) == [2, 1]
    ensures Leaves(Uneven(p, q)) == [ItemValue(p), ItemValue(q)]
  {
    OneLeaf(p);
    OneLeaf(q);
    var inner, t := Node([Leaf(p)]), Uneven(p, q);
    assert t.children[0] == inner && t.children[1..] == [Leaf(q)];
    assert Fits(inner, 1);
    assert Level(inner, 0) == [[Leaf(p)]] && Level(t, 1) == Level(inner, 0) + ListLevel([Leaf(q)], 0);
    assert Level(t, 0) == [t.children] && Level(t, 1) == [[Leaf(p)]];
    assert Leaves(inner) == [ItemValue(p)] && Leaves(t) == Leaves(inner) + ListLeaves([Leaf(q)]);
  }

  lemma Brackets(a: string, b: string)
    ensures "{" + ("{" + (a + "}") + ("," + b)) == "{{" + (a + ("}," + b))
  {}

  lemma UnevenText(p: Item, q: Item)
    ensures Text(Uneven(p, q)) == "{{" + (ItemText(p) + ("}," + (ItemText(q) + "}")))
  {
    OneLeaf(p);
    OneLeaf(q);
    var inner, t := Node([Leaf(p)]), Uneven(p, q);
    assert t.children[0] == inner && t.children[1..] == [Leaf(q)];
    assert Text(inner) == "{" + (ItemText(p) + "}");
    Brackets(ItemText(p), ItemText(q) + "}");
  }

  /** Counting does not see that an element stands beside an array, as in {{a},b}: the text is
      accepted, with dimensions that no rectangular array of this text has. */
  lemma NotOnlyRectangular(p: Item, q: Item, dims: seq<nat>)
    requires ValidItem(p) && ValidItem(q)
    ensures Parse("{{" + (ItemText(p) + ("}," + (ItemText(q) + "}")))) == Ok(Parsed([2, 1], [ItemValue(p), ItemValue(q)]))
    ensures !Rectangular(Uneven(p, q), dims)
  {
    UnevenShape(p, q);
    UnevenText(p, q);
    ArrayIsRead(Uneven(p, q));
    var t := Uneven(p, q);
    assert t.children[0] in t.children && t.children[1] in t.children;
  }
}
