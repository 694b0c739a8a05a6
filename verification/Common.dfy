/** Datatypes and string searches that several components share. */
module Common {
  datatype Option<+T> = None | Some(value: T)

  datatype Result<+T, +E> = Ok(value: T) | Err(error: E)

  /** The first position of `c` in `s`, or |s| when there is none. */
  function IndexOf(s: string, c: char): (i: nat)
    ensures i <= |s|
    ensures forall j :: 0 <= j < i ==> s[j] != c
    ensures i < |s| ==> s[i] == c
  {
    if s == [] || s[0] == c then 0 else 1 + IndexOf(s[1..], c)
  }

  lemma IndexOfAppend(s: string, t: string, c: char)
    requires c !in s && (t == [] || t[0] == c)
    ensures IndexOf(s + t, c) == |s|
  {
    assert forall k :: 0 <= k < |s| ==> (s + t)[k] == s[k] && s[k] in s;
    assert (s + t)[|s|..] == t;
  }

  /** Cuts `s` at every `c`; there is always at least one piece. */
  function Split(s: string, c: char): (pieces: seq<string>)
    ensures |pieces| > 0
    decreases |s|
  {
    var i := IndexOf(s, c);
    if i == |s| then [s] else [s[..i]] + Split(s[i + 1..], c)
  }

  function Join(pieces: seq<string>, c: char): string
    requires |pieces| > 0
  {
    if |pieces| == 1 then pieces[0] else pieces[0] + [c] + Join(pieces[1..], c)
  }

  /** Splitting loses nothing, and no piece contains the separator. */
  lemma {:induction false} JoinSplit(s: string, c: char)
    ensures Join(Split(s, c), c) == s
    ensures forall i :: 0 <= i < |Split(s, c)| ==> c !in Split(s, c)[i]
    decreases |s|
  {
    var i := IndexOf(s, c);
    if i < |s| {
      JoinSplit(s[i + 1..], c);
      assert s == s[..i] + [c] + s[i + 1..];
      assert Split(s, c)[1..] == Split(s[i + 1..], c);
    }
  }

  lemma SplitFirst(piece: string, tail: string, c: char)
    requires c !in piece
    ensures Split(piece + ([c] + tail), c) == [piece] + Split(tail, c)
  {
    var s := piece + ([c] + tail);
    IndexOfAppend(piece, [c] + tail, c);
    assert s[..|piece|] == piece && s[|piece| + 1..] == tail;
  }

  /** Cutting what was joined gives the pieces back. */
  lemma {:induction false} SplitJoin(pieces: seq<string>, c: char)
    requires |pieces| > 0 && forall i :: 0 <= i < |pieces| ==> c !in pieces[i]
    ensures Split(Join(pieces, c), c) == pieces
    decreases |pieces|
  {
    if |pieces| == 1 {
      IndexOfAppend(pieces[0], "", c);
      assert pieces[0] + "" == pieces[0];
    } else {
      var tail := Join(pieces[1..], c);
      SplitJoin(pieces[1..], c);
      SplitFirst(pieces[0], tail, c);
      Associative(pieces[0], [c], tail);
      assert pieces == [pieces[0]] + pieces[1..];
    }
  }

  lemma {:induction false} JoinLast(pieces: seq<string>, last: string, c: char)
    requires |pieces| > 0
    ensures Join(pieces + [last], c) == Join(pieces, c) + [c] + last
    decreases |pieces|
  {
    if |pieces| > 1 {
      JoinLast(pieces[1..], last, c);
      assert (pieces + [last])[1..] == pieces[1..] + [last];
      var tail := Join(pieces[1..], c);
      assert pieces[0] + [c] + (tail + [c] + last) == pieces[0] + [c] + tail + [c] + last;
    } else {
      assert (pieces + [last])[1..] == [last];
    }
  }

  /** A piece holds characters of the text only. */
  lemma {:induction false} PieceChars(s: string, c: char, k: nat, j: nat)
    requires k < |Split(s, c)| && j < |Split(s, c)[k]|
    ensures Split(s, c)[k][j] in s
    decreases |s|
  {
    var i := IndexOf(s, c);
    if i < |s| && k > 0 {
      PieceChars(s[i + 1..], c, k - 1, j);
    }
  }

  /** Concatenation is associative; spelled out where a proof needs the other grouping. */
  lemma Associative<T>(a: seq<T>, b: seq<T>, c: seq<T>)
    ensures a + b + c == a + (b + c)
  {}
}
