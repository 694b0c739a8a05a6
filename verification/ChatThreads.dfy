/** Grouping exported chat messages into reply threads, in one pass. */
module ChatThreads {
  import opened Common

  /** `reply` is the id of the message replied to, 0 for a message that starts a thread. */
  datatype Message = Message(id: int, reply: int, isMessage: bool, text: string)

  type Thread = seq<Message>

  // ---------- the thread of a message ----------

  /** The root of the last message with the given id among the first `n` that belongs to a
      thread. */
  function RootById(input: seq<Message>, n: nat, id: int): (r: Option<nat>)
    requires n <= |input|
    ensures r.Some? ==> r.value < n
    decreases n, 0
  {
    if n == 0 then None
    else if input[n - 1].id == id && RootOf(input, n - 1).Some? then RootOf(input, n - 1)
    else RootById(input, n - 1, id)
  }

  /** The message that starts the thread of message `i`; `None` when `i` belongs to no thread. */
  function RootOf(input: seq<Message>, i: nat): (r: Option<nat>)
    requires i < |input|
    ensures r.Some? ==> r.value <= i
    decreases i, 1
  {
    if input[i].reply == 0 then Some(i) else RootById(input, i, input[i].reply)
  }

  /** The thread starters among the first `n` messages. */
  function Roots(input: seq<Message>, n: nat): (r: seq<nat>)
    requires n <= |input|
    ensures forall t :: 0 <= t < |r| ==> r[t] < n && input[r[t]].reply == 0
  {
    if n == 0 then []
    else Roots(input, n - 1) + (if input[n - 1].reply == 0 then [n - 1] else [])
  }

  /** The messages of one thread among the first `n`, in input order. */
  function ThreadOf(input: seq<Message>, root: nat, n: nat): Thread
    requires n <= |input|
  {
    if n == 0 then []
    else ThreadOf(input, root, n - 1) + (if RootOf(input, n - 1) == Some(root) then [input[n - 1]] else [])
  }

  function Threads(input: seq<Message>, n: nat): seq<Thread>
    requires n <= |input|
  {
    seq(|Roots(input, n)|, t requires 0 <= t < |Roots(input, n)| => ThreadOf(input, Roots(input, n)[t], n))
  }

  // ---------- reply chains ----------

  /** A chain of replies from message `c[0]` back to a thread starter: each message replies to
      the id of the next, which stands earlier in the input. */
  ghost predicate IsChain(input: seq<Message>, c: seq<nat>) {
    && c != [] && c[0] < |input|
    && if input[c[0]].reply == 0 then |c| == 1
       else |c| > 1 && c[1] < c[0] && input[c[1]].id == input[c[0]].reply && IsChain(input, c[1..])
  }

  lemma {:induction false} ChainOfRoot(input: seq<Message>, i: nat) returns (c: seq<nat>)
    requires i < |input| && RootOf(input, i).Some?
    ensures IsChain(input, c) && c[0] == i && c[|c| - 1] == RootOf(input, i).value
    decreases i, 1
  {
    if input[i].reply == 0 {
      c := [i];
    } else {
      var j, tail := ChainById(input, i, input[i].reply);
      c := [i] + tail;
      assert c[1..] == tail;
    }
  }

  lemma {:induction false} ChainById(input: seq<Message>, n: nat, id: int) returns (j: nat, c: seq<nat>)
    requires n <= |input| && RootById(input, n, id).Some?
    ensures j < n && input[j].id == id
    ensures IsChain(input, c) && c[0] == j && c[|c| - 1] == RootById(input, n, id).value
    decreases n, 0
  {
    if input[n - 1].id == id && RootOf(input, n - 1).Some? {
      j := n - 1;
      c := ChainOfRoot(input, n - 1);
    } else {
      j, c := ChainById(input, n - 1, id);
    }
  }

  lemma {:induction false} FoundById(input: seq<Message>, n: nat, j: nat)
    requires j < n <= |input| && RootOf(input, j).Some?
    ensures RootById(input, n, input[j].id).Some?
    decreases n
  {
    if j < n - 1 {
      FoundById(input, n - 1, j);
    }
  }

  lemma {:induction false} RootOfChain(input: seq<Message>, c: seq<nat>)
    requires IsChain(input, c)
    ensures RootOf(input, c[0]).Some?
    decreases |c|
  {
    if |c| > 1 {
      RootOfChain(input, c[1..]);
      FoundById(input, c[0], c[1]);
    }
  }

  ghost predicate HasChain(input: seq<Message>, i: nat) {
    exists c :: IsChain(input, c) && c[0] == i
  }

  /** A message belongs to a thread exactly when its replies lead back, through earlier messages,
      to a message that replies to nothing. */
  lemma KeptIffChain(input: seq<Message>, i: nat)
    requires i < |input|
    ensures RootOf(input, i).Some? <==> HasChain(input, i)
  {
    if RootOf(input, i).Some? {
      var c := ChainOfRoot(input, i);
    }
    if HasChain(input, i) {
      var c :| IsChain(input, c) && c[0] == i;
      RootOfChain(input, c);
    }
  }

  /** Message `j` is the last one before `n` that has the id and belongs to a thread. */
  ghost predicate IsLatest(input: seq<Message>, n: nat, id: int, j: nat) {
    && j < n <= |input| && input[j].id == id && RootOf(input, j).Some?
    && forall k {:trigger RootOf(input, k)} :: j < k < n && input[k].id == id ==> RootOf(input, k).None?
  }

  lemma {:induction false} LatestById(input: seq<Message>, n: nat, id: int)
    requires n <= |input|
    ensures forall j {:trigger IsLatest(input, n, id, j)} ::
              IsLatest(input, n, id, j) ==> RootById(input, n, id) == RootOf(input, j)
    ensures RootById(input, n, id).Some? ==> exists j {:trigger IsLatest(input, n, id, j)} :: IsLatest(input, n, id, j)
    decreases n
  {
    if n > 0 {
      LatestById(input, n - 1, id);
      if input[n - 1].id == id && RootOf(input, n - 1).Some? {
        assert IsLatest(input, n, id, n - 1);
      } else {
        forall j: nat | j < n - 1 ensures IsLatest(input, n, id, j) <==> IsLatest(input, n - 1, id, j) {}
        if RootById(input, n, id).Some? {
          var j: nat :| IsLatest(input, n - 1, id, j);
          assert IsLatest(input, n, id, j);
        }
      }
    }
  }

  /** Even when ids repeat: an answer belongs to the thread of the latest earlier message with that
      id that belongs to a thread, and to none when there is no such message. */
  lemma LatestDecides(input: seq<Message>, i: nat, j: nat)
    requires i < |input| && input[i].reply != 0
    ensures IsLatest(input, i, input[i].reply, j) ==> RootOf(input, i) == RootOf(input, j)
    ensures RootOf(input, i).Some? ==>
              exists l {:trigger IsLatest(input, i, input[i].reply, l)} :: IsLatest(input, i, input[i].reply, l)
  {
    LatestById(input, i, input[i].reply);
  }

  predicate DistinctIds(input: seq<Message>) {
    forall i, j :: 0 <= i < j < |input| ==> input[i].id != input[j].id
  }

  lemma {:induction false} UniqueById(input: seq<Message>, n: nat, j: nat)
    requires DistinctIds(input) && j < n <= |input|
    ensures RootById(input, n, input[j].id) == RootOf(input, j)
    decreases n
  {
    if j < n - 1 {
      UniqueById(input, n - 1, j);
    } else {
      NoneById(input, n - 1, input[j].id);
    }
  }

  lemma {:induction false} NoneById(input: seq<Message>, n: nat, id: int)
    requires n <= |input| && forall j :: 0 <= j < n ==> input[j].id != id
    ensures RootById(input, n, id) == None
  {
    if n > 0 {
      NoneById(input, n - 1, id);
    }
  }

  /** With distinct ids the thread is the one that the chain ends in. */
  lemma {:induction false} ChainEndsInRoot(input: seq<Message>, c: seq<nat>)
    requires DistinctIds(input) && IsChain(input, c)
    ensures RootOf(input, c[0]) == Some(c[|c| - 1])
    decreases |c|
  {
    if |c| > 1 {
      ChainEndsInRoot(input, c[1..]);
      UniqueById(input, c[0], c[1]);
    }
  }

  // ---------- every kept message is in one thread ----------

  lemma {:induction false} RootIsListed(input: seq<Message>, n: nat, root: nat)
    requires root < n <= |input| && input[root].reply == 0
    ensures root in Roots(input, n)
  {
    if root < n - 1 {
      RootIsListed(input, n - 1, root);
      assert Roots(input, n)[..|Roots(input, n - 1)|] == Roots(input, n - 1);
    } else {
      assert Roots(input, n)[|Roots(input, n)| - 1] == root;
    }
  }

  /** Thread starters are listed once, in input order. */
  lemma {:induction false} RootsIncrease(input: seq<Message>, n: nat)
    requires n <= |input|
    ensures forall s, t :: 0 <= s < t < |Roots(input, n)| ==> Roots(input, n)[s] < Roots(input, n)[t]
  {
    if n > 0 {
      RootsIncrease(input, n - 1);
    }
  }

  lemma {:induction false} RootStarts(input: seq<Message>, i: nat)
    requires i < |input| && RootOf(input, i).Some?
    ensures input[RootOf(input, i).value].reply == 0
    decreases i, 1
  {
    if input[i].reply != 0 {
      RootStartsById(input, i, input[i].reply);
    }
  }

  lemma {:induction false} RootStartsById(input: seq<Message>, n: nat, id: int)
    requires n <= |input| && RootById(input, n, id).Some?
    ensures input[RootById(input, n, id).value].reply == 0
    decreases n, 0
  {
    if input[n - 1].id == id && RootOf(input, n - 1).Some? {
      RootStarts(input, n - 1);
    } else {
      RootStartsById(input, n - 1, id);
    }
  }

  /** The number of messages in some threads. */
  function Total(threads: seq<Thread>): nat {
    if threads == [] then 0 else Total(threads[..|threads| - 1]) + |threads[|threads| - 1]|
  }

  function Skipped(input: seq<Message>, n: nat): nat
    requires n <= |input|
  {
    if n == 0 then 0 else Skipped(input, n - 1) + (if RootOf(input, n - 1).None? then 1 else 0)
  }

  /** No message before a thread starter belongs to its thread. */
  lemma {:induction false} FreshThread(input: seq<Message>, root: nat, n: nat)
    requires n <= root <= |input|
    ensures ThreadOf(input, root, n) == []
  {
    if n > 0 {
      FreshThread(input, root, n - 1);
    }
  }

  lemma NewRoot(input: seq<Message>, n: nat)
    requires n < |input| && input[n].reply == 0
    ensures Threads(input, n + 1) == Threads(input, n) + [[input[n]]]
  {
    var roots := Roots(input, n + 1);
    assert roots == Roots(input, n) + [n];
    FreshThread(input, n, n);
    forall t | 0 <= t < |roots|
      ensures ThreadOf(input, roots[t], n + 1) ==
              if t == |roots| - 1 then [input[n]] else ThreadOf(input, roots[t], n)
    {
      assert RootOf(input, n) == Some(n);
      assert ThreadOf(input, roots[t], n) + [] == ThreadOf(input, roots[t], n);
    }
  }

  lemma SameRoots(input: seq<Message>, n: nat, t: nat)
    requires n < |input| && input[n].reply != 0 && t < |Roots(input, n)|
    requires RootOf(input, n) == Some(Roots(input, n)[t])
    ensures Roots(input, n + 1) == Roots(input, n)
    ensures Threads(input, n + 1) == Threads(input, n)[t := Threads(input, n)[t] + [input[n]]]
  {
    var roots := Roots(input, n);
    assert Roots(input, n + 1) == roots + [] == roots;
    RootsIncrease(input, n);
    var was := Threads(input, n);
    forall u | 0 <= u < |roots|
      ensures ThreadOf(input, roots[u], n + 1) == was[t := was[t] + [input[n]]][u]
    {
      assert u != t ==> roots[u] != roots[t];
      assert ThreadOf(input, roots[u], n) + [] == ThreadOf(input, roots[u], n);
    }
  }

  lemma NoRoot(input: seq<Message>, n: nat)
    requires n < |input| && RootOf(input, n).None?
    ensures Roots(input, n + 1) == Roots(input, n) && Threads(input, n + 1) == Threads(input, n)
  {
    var roots := Roots(input, n);
    assert Roots(input, n + 1) == roots + [] == roots;
    forall u | 0 <= u < |roots| ensures ThreadOf(input, roots[u], n + 1) == ThreadOf(input, roots[u], n) {
      assert ThreadOf(input, roots[u], n) + [] == ThreadOf(input, roots[u], n);
    }
  }

  lemma PlaceOfRoot(input: seq<Message>, n: nat) returns (t: nat)
    requires n < |input| && input[n].reply != 0 && RootOf(input, n).Some?
    ensures t < |Roots(input, n)| && RootOf(input, n) == Some(Roots(input, n)[t])
  {
    RootStarts(input, n);
    RootIsListed(input, n, RootOf(input, n).value);
    t :| t < |Roots(input, n)| && Roots(input, n)[t] == RootOf(input, n).value;
  }

  lemma TotalOfNew(threads: seq<Thread>, v: Message)
    ensures Total(threads + [[v]]) == Total(threads) + 1
  {
    assert (threads + [[v]])[..|threads|] == threads;
  }

  lemma {:induction false} TotalOfGrown(threads: seq<Thread>, t: nat, v: Message)
    requires t < |threads|
    ensures Total(threads[t := threads[t] + [v]]) == Total(threads) + 1
  {
    var now, last := threads[t := threads[t] + [v]], |threads| - 1;
    if t == last {
      assert now[..last] == threads[..last];
    } else {
      assert now[..last] == threads[..last][t := threads[..last][t] + [v]];
      TotalOfGrown(threads[..last], t, v);
    }
  }

  function Kept(input: seq<Message>, n: nat): nat
    requires n <= |input|
  {
    if n == 0 then 0 else Kept(input, n - 1) + (if RootOf(input, n - 1).Some? then 1 else 0)
  }

  /** A message adds one to the threads, or nothing when it is skipped. */
  lemma OneMoreKept(input: seq<Message>, n: nat)
    requires n < |input|
    ensures Total(Threads(input, n + 1)) - Total(Threads(input, n)) == Kept(input, n + 1) - Kept(input, n)
  {
    if input[n].reply == 0 {
      NewRoot(input, n);
      TotalOfNew(Threads(input, n), input[n]);
    } else if RootOf(input, n).None? {
      NoRoot(input, n);
    } else {
      var t := PlaceOfRoot(input, n);
      SameRoots(input, n, t);
      TotalOfGrown(Threads(input, n), t, input[n]);
    }
  }

  lemma {:induction false} ThreadsHoldTheKept(input: seq<Message>, n: nat)
    requires n <= |input|
    ensures Total(Threads(input, n)) == Kept(input, n)
  {
    if n > 0 {
      ThreadsHoldTheKept(input, n - 1);
      OneMoreKept(input, n - 1);
    }
  }

  lemma {:induction false} KeptOrSkipped(input: seq<Message>, n: nat)
    requires n <= |input|
    ensures Kept(input, n) + Skipped(input, n) == n
  {
    if n > 0 {
      KeptOrSkipped(input, n - 1);
    }
  }

  /** Nothing is lost or doubled: the threads and the skipped messages add up to the input. */
  lemma NothingLost(input: seq<Message>)
    ensures Total(Threads(input, |input|)) + Skipped(input, |input|) == |input|
  {
    ThreadsHoldTheKept(input, |input|);
    KeptOrSkipped(input, |input|);
  }

  /** A thread opens with the message that started it. */
  lemma {:induction false} ThreadOpensWithRoot(input: seq<Message>, root: nat, n: nat)
    requires root < n <= |input| && input[root].reply == 0
    ensures ThreadOf(input, root, n) != [] && ThreadOf(input, root, n)[0] == input[root]
  {
    if root < n - 1 {
      ThreadOpensWithRoot(input, root, n - 1);
    } else {
      FreshThread(input, root, root);
    }
  }

  /** The positions of one thread's messages, in input order. */
  function Positions(input: seq<Message>, root: nat, n: nat): seq<nat>
    requires n <= |input|
  {
    if n == 0 then []
    else Positions(input, root, n - 1) + (if RootOf(input, n - 1) == Some(root) then [n - 1] else [])
  }

  lemma {:induction false} PositionsAreExact(input: seq<Message>, root: nat, n: nat)
    requires n <= |input|
    ensures var ps := Positions(input, root, n);
            && (forall j, k :: 0 <= j < k < |ps| ==> ps[j] < ps[k])
            && (forall i :: i in ps <==> 0 <= i < n && RootOf(input, i) == Some(root))
  {
    if n > 0 {
      PositionsAreExact(input, root, n - 1);
      var front := Positions(input, root, n - 1);
      assert forall k :: 0 <= k < |front| ==> front[k] in front;
    }
  }

  /** A thread holds, in input order and without gaps, exactly the messages that belong to it. */
  lemma {:induction false} ThreadHoldsItsMessages(input: seq<Message>, root: nat, n: nat)
    requires n <= |input|
    ensures |ThreadOf(input, root, n)| == |Positions(input, root, n)|
    ensures forall k :: 0 <= k < |Positions(input, root, n)| ==>
              Positions(input, root, n)[k] < n && ThreadOf(input, root, n)[k] == input[Positions(input, root, n)[k]]
  {
    if n > 0 {
      ThreadHoldsItsMessages(input, root, n - 1);
    }
  }

  // ---------- the pass over the input ----------

  /** The map from message ids to threads after the first `n` messages. */
  ghost predicate Indexes(m: map<int, nat>, input: seq<Message>, n: nat)
    requires n <= |input|
  {
    forall id {:trigger RootById(input, n, id)} ::
      if id in m then m[id] < |Roots(input, n)| && RootById(input, n, id) == Some(Roots(input, n)[m[id]])
      else RootById(input, n, id) == None
  }

  lemma IndexesSkip(m: map<int, nat>, input: seq<Message>, n: nat)
    requires n < |input| && Indexes(m, input, n) && RootOf(input, n).None?
    ensures Indexes(m, input, n + 1)
  {
    NoRoot(input, n);
    forall id
      ensures if id in m then m[id] < |Roots(input, n + 1)| && RootById(input, n + 1, id) == Some(Roots(input, n + 1)[m[id]])
              else RootById(input, n + 1, id) == None
    {
      assert RootById(input, n + 1, id) == RootById(input, n, id);
    }
  }

  lemma IndexesAdd(m: map<int, nat>, input: seq<Message>, n: nat, t: nat)
    requires n < |input| && Indexes(m, input, n)
    requires t < |Roots(input, n + 1)| && RootOf(input, n) == Some(Roots(input, n + 1)[t])
    ensures Indexes(m[input[n].id := t], input, n + 1)
  {
    var m' := m[input[n].id := t];
    forall id
      ensures if id in m' then m'[id] < |Roots(input, n + 1)| && RootById(input, n + 1, id) == Some(Roots(input, n + 1)[m'[id]])
              else RootById(input, n + 1, id) == None
    {
      if id != input[n].id {
        assert RootById(input, n + 1, id) == RootById(input, n, id);
        assert id in m ==> Roots(input, n + 1)[m[id]] == Roots(input, n)[m[id]];
      }
    }
  }

  /** `findThreads`. */
  method FindThreads(input: seq<Message>) returns (r: seq<Thread>)
    ensures r == Threads(input, |input|)
  {
    r := [];
    var threadIdx := 0;
    var mapMsgToThreadIdx: map<int, nat> := map[];
    var n := 0;
    while n < |input|
      invariant 0 <= n <= |input|
      invariant r == Threads(input, n) && threadIdx == |r|
      invariant Indexes(mapMsgToThreadIdx, input, n)
    {
      var v := input[n];
      assert v.reply != 0 ==> RootOf(input, n) == RootById(input, n, v.reply);
      if v.reply == 0 {
        NewRoot(input, n);
        IndexesAdd(mapMsgToThreadIdx, input, n, threadIdx);
        r := r + [[]];
        r := r[threadIdx := r[threadIdx] + [v]];
        mapMsgToThreadIdx := mapMsgToThreadIdx[v.id := threadIdx];
        threadIdx := threadIdx + 1;
      } else if v.reply in mapMsgToThreadIdx {
        var place := mapMsgToThreadIdx[v.reply];
        SameRoots(input, n, place);
        IndexesAdd(mapMsgToThreadIdx, input, n, place);
        r := r[place := r[place] + [v]];
        mapMsgToThreadIdx := mapMsgToThreadIdx[v.id := place];
      } else {
        NoRoot(input, n);
        IndexesSkip(mapMsgToThreadIdx, input, n);
      }
      n := n + 1;
    }
  }

  // ---------- threads with answers ----------

  function Filter<T>(xs: seq<T>, keep: T -> bool): seq<T> {
    if xs == [] then []
    else
      var last := xs[|xs| - 1];
      Filter(xs[..|xs| - 1], keep) + (if keep(last) then [last] else [])
  }

  predicate Increasing(at: seq<nat>) {
    forall j, k :: 0 <= j < k < |at| ==> at[j] < at[k]
  }

  /** `ys` are the elements of `xs` at the positions `at`. */
  predicate ArePicked<T(==)>(xs: seq<T>, at: seq<nat>, ys: seq<T>) {
    |ys| == |at| && forall k :: 0 <= k < |at| ==> at[k] < |xs| && ys[k] == xs[at[k]]
  }

  lemma PositionsExtend<T>(xs: seq<T>, keep: T -> bool, front: seq<nat>)
    requires xs != [] && forall i :: i in front <==> 0 <= i < |xs| - 1 && keep(xs[..|xs| - 1][i])
    ensures var at := if keep(xs[|xs| - 1]) then front + [|xs| - 1] else front;
            forall i :: i in at <==> 0 <= i < |xs| && keep(xs[i])
    ensures forall k :: 0 <= k < |front| ==> front[k] < |xs| - 1
  {
    var n := |xs| - 1;
    assert forall i :: i in front + [n] <==> i in front || i == n;
    assert forall i :: 0 <= i < n ==> xs[..n][i] == xs[i];
    forall k | 0 <= k < |front| ensures front[k] < n {
      assert front[k] in front;
    }
  }

  lemma PicksExtend<T>(xs: seq<T>, front: seq<nat>, ys: seq<T>)
    requires xs != [] && ArePicked(xs[..|xs| - 1], front, ys) && Increasing(front)
    requires forall k :: 0 <= k < |front| ==> front[k] < |xs| - 1
    ensures ArePicked(xs, front, ys) && ArePicked(xs, front + [|xs| - 1], ys + [xs[|xs| - 1]])
    ensures Increasing(front + [|xs| - 1])
  {}

  /** Filtering picks, in order, exactly the elements to keep. */
  lemma {:induction false} FilterPicks<T>(xs: seq<T>, keep: T -> bool) returns (at: seq<nat>)
    ensures Increasing(at) && ArePicked(xs, at, Filter(xs, keep))
    ensures forall i :: i in at <==> 0 <= i < |xs| && keep(xs[i])
    decreases |xs|
  {
    if xs == [] {
      at := [];
    } else {
      var n := |xs| - 1;
      var front := FilterPicks(xs[..n], keep);
      at := if keep(xs[n]) then front + [n] else front;
      PositionsExtend(xs, keep, front);
      PicksExtend(xs, front, Filter(xs[..n], keep));
      assert Filter(xs[..n], keep) + [] == Filter(xs[..n], keep);
    }
  }

  /** Some later message belongs to the thread of `root`. */
  ghost predicate Answered(input: seq<Message>, root: nat) {
    exists i {:trigger RootOf(input, i)} :: root < i < |input| && RootOf(input, i) == Some(root)
  }

  lemma TwoInSeq(s: seq<nat>, a: nat, b: nat)
    requires a in s && b in s && a != b
    ensures |s| > 1
  {
    var i :| 0 <= i < |s| && s[i] == a;
    var j :| 0 <= j < |s| && s[j] == b;
  }

  /** A thread is longer than its starter exactly when the starter was answered. */
  lemma LongIffAnswered(input: seq<Message>, root: nat)
    requires root < |input| && input[root].reply == 0
    ensures |ThreadOf(input, root, |input|)| > 1 <==> Answered(input, root)
  {
    var ps := Positions(input, root, |input|);
    PositionsAreExact(input, root, |input|);
    ThreadHoldsItsMessages(input, root, |input|);
    if |ps| > 1 {
      assert ps[0] in ps && ps[1] in ps;
      assert RootOf(input, ps[0]) == Some(root) && RootOf(input, ps[1]) == Some(root);
    }
    if Answered(input, root) {
      var i :| root < i < |input| && RootOf(input, i) == Some(root);
      TwoInSeq(ps, root, i);
    }
  }

  /** `roots` are, in order, exactly the thread starters that were answered. */
  ghost predicate AreAnswered(input: seq<Message>, roots: seq<nat>) {
    && Increasing(roots)
    && forall i :: i in roots <==> 0 <= i < |input| && input[i].reply == 0 && Answered(input, i)
  }

  /** The places of the long threads in the list of all threads. */
  ghost predicate AreLong(input: seq<Message>, at: seq<nat>) {
    && Increasing(at)
    && forall t :: t in at <==> 0 <= t < |Roots(input, |input|)| && |ThreadOf(input, Roots(input, |input|)[t], |input|)| > 1
  }

  lemma AnsweredIsLong(input: seq<Message>, at: seq<nat>, i: nat) returns (t: nat)
    requires AreLong(input, at) && i < |input| && input[i].reply == 0 && Answered(input, i)
    ensures t in at && t < |Roots(input, |input|)| && Roots(input, |input|)[t] == i
  {
    RootIsListed(input, |input|, i);
    t :| 0 <= t < |Roots(input, |input|)| && Roots(input, |input|)[t] == i;
    LongIffAnswered(input, i);
  }

  lemma LongAreAnswered(input: seq<Message>, at: seq<nat>, roots: seq<nat>)
    requires AreLong(input, at) && ArePicked(Roots(input, |input|), at, roots)
    ensures AreAnswered(input, roots)
  {
    var all := Roots(input, |input|);
    RootsIncrease(input, |input|);
    forall i | i in roots ensures 0 <= i < |input| && input[i].reply == 0 && Answered(input, i) {
      var k :| 0 <= k < |roots| && roots[k] == i;
      assert at[k] in at;
      LongIffAnswered(input, i);
    }
    forall i | 0 <= i < |input| && input[i].reply == 0 && Answered(input, i) ensures i in roots {
      var t := AnsweredIsLong(input, at, i);
      var k :| 0 <= k < |at| && at[k] == t;
      assert roots[k] == all[t];
    }
  }

  /** `r` are the threads of the given starters. */
  ghost predicate AreThreadsOf(input: seq<Message>, roots: seq<nat>, r: seq<Thread>) {
    r == seq(|roots|, k requires 0 <= k < |roots| => ThreadOf(input, roots[k], |input|))
  }

  /** Keeping the long threads keeps those of the answered starters. */
  lemma LongThreads(input: seq<Message>) returns (roots: seq<nat>)
    ensures AreAnswered(input, roots)
    ensures AreThreadsOf(input, roots, Filter(Threads(input, |input|), (t: Thread) => |t| > 1))
  {
    var all := Roots(input, |input|);
    var at := FilterPicks(Threads(input, |input|), (t: Thread) => |t| > 1);
    assert AreLong(input, at);
    roots := seq(|at|, k requires 0 <= k < |at| => all[at[k]]);
    LongAreAnswered(input, at, roots);
  }

  /** `input` are, in order, exactly the messages of type "message". */
  ghost predicate AreMessages(messages: seq<Message>, input: seq<Message>) {
    exists at {:trigger ArePicked(messages, at, input)} ::
      && Increasing(at) && ArePicked(messages, at, input)
      && forall i :: i in at <==> 0 <= i < |messages| && messages[i].isMessage
  }

  /** `threadsHighMem` after decoding: of the messages of type "message", the threads of exactly
      the starters that were answered, in input order. */
  method ThreadsWithAnswers(messages: seq<Message>) returns (r: seq<Thread>)
    ensures exists input, roots {:trigger AreThreadsOf(input, roots, r)} ::
              AreMessages(messages, input) && AreAnswered(input, roots) && AreThreadsOf(input, roots, r)
  {
    var input := Filter(messages, (m: Message) => m.isMessage);
    ghost var at := FilterPicks(messages, (m: Message) => m.isMessage);
    assert ArePicked(messages, at, input);
    ghost var roots := LongThreads(input);
    var threads := FindThreads(input);
    r := Filter(threads, (t: Thread) => |t| > 1);
    assert AreThreadsOf(input, roots, r);
  }
}
