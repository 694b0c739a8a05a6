/** Collecting the log fields of an error and of everything it wraps: breadth first, with the
    deepest field of a key winning. */
module ErrorFields {
  datatype Field = Field(key: string, value: string)

  /** An error with its own fields and the errors it wraps or joins; nil has neither. */
  datatype Err = Err(fields: seq<Field>, wrapped: seq<Err>)

  type Fields = map<string, Field>

  // ---------- trees and their levels ----------

  function Size(e: Err): nat {
    1 + SizeAll(e.wrapped)
  }

  function SizeAll(es: seq<Err>): nat {
    if es == [] then 0 else Size(es[0]) + SizeAll(es[1..])
  }

  lemma {:induction false} SizeAppend(a: seq<Err>, b: seq<Err>)
    ensures SizeAll(a + b) == SizeAll(a) + SizeAll(b)
  {
    if a == [] {
      assert a + b == b;
    } else {
      assert (a + b)[1..] == a[1..] + b;
      SizeAppend(a[1..], b);
    }
  }

  /** The errors wrapped by those of one level, in order. */
  function Below(es: seq<Err>): seq<Err> {
    if es == [] then [] else es[0].wrapped + Below(es[1..])
  }

  lemma {:induction false} SizeBelow(es: seq<Err>)
    ensures SizeAll(Below(es)) + |es| == SizeAll(es)
  {
    if es != [] {
      SizeBelow(es[1..]);
      SizeAppend(es[0].wrapped, Below(es[1..]));
    }
  }

  /** The errors at depth `d` below a level. */
  function Level(es: seq<Err>, d: nat): seq<Err>
    decreases d
  {
    if d == 0 then es else Level(Below(es), d - 1)
  }

  lemma {:induction false} BelowAppend(a: seq<Err>, b: seq<Err>)
    ensures Below(a + b) == Below(a) + Below(b)
  {
    if a == [] {
      assert a + b == b;
    } else {
      assert (a + b)[1..] == a[1..] + b;
      BelowAppend(a[1..], b);
    }
  }

  lemma {:induction false} LevelAppend(a: seq<Err>, b: seq<Err>, d: nat)
    ensures Level(a + b, d) == Level(a, d) + Level(b, d)
    decreases d
  {
    if d > 0 {
      BelowAppend(a, b);
      LevelAppend(Below(a), Below(b), d - 1);
    }
  }

  /** A level lists what the first error holds at that depth before what the second one holds; the
      errors below a single error are those it wraps, in its order. */
  lemma LevelsFollowOrder(e: Err, more: seq<Err>, d: nat)
    ensures Level([e] + more, d) == Level([e], d) + Level(more, d)
    ensures Level([e], 0) == [e] && Level([e], d + 1) == Level(e.wrapped, d)
  {
    LevelAppend([e], more, d);
    assert [e][1..] == [] && Below([e]) == e.wrapped + [] == e.wrapped;
  }

  /** All levels, one after the other. */
  function Levels(es: seq<Err>): seq<Err>
    decreases SizeAll(es)
  {
    if es == [] then []
    else
      SizeBelow(es);
      es + Levels(Below(es))
  }

  // ---------- the queue visits level by level ----------

  lemma QueueShrinks(queue: seq<Err>)
    requires queue != []
    ensures SizeAll(queue[1..] + queue[0].wrapped) < SizeAll(queue)
  {
    SizeAppend(queue[1..], queue[0].wrapped);
    assert SizeAll(queue) == Size(queue[0]) + SizeAll(queue[1..]);
  }

  /** The order in which a queue visits errors when wrapped errors go to its end. */
  function Visits(queue: seq<Err>): seq<Err>
    decreases SizeAll(queue)
  {
    if queue == [] then []
    else
      QueueShrinks(queue);
      [queue[0]] + Visits(queue[1..] + queue[0].wrapped)
  }

  lemma {:induction false} VisitsFirst(a: seq<Err>, b: seq<Err>)
    ensures Visits(a + b) == a + Visits(b + Below(a))
    decreases |a|
  {
    if a == [] {
      assert a + b == b && b + Below(a) == b;
    } else {
      var x, tail := a[0], a[1..];
      assert (a + b)[1..] + x.wrapped == tail + (b + x.wrapped);
      VisitsFirst(tail, b + x.wrapped);
      assert b + x.wrapped + Below(tail) == b + Below(a);
      assert [x] + (tail + Visits(b + Below(a))) == a + Visits(b + Below(a));
    }
  }

  lemma {:induction false} VisitsAreLevels(es: seq<Err>)
    ensures Visits(es) == Levels(es)
    decreases SizeAll(es)
  {
    if es != [] {
      SizeBelow(es);
      VisitsFirst(es, []);
      assert es + [] == es && [] + Below(es) == Below(es);
      VisitsAreLevels(Below(es));
    }
  }

  // ---------- writing fields ----------

  function WriteFields(m: Fields, fields: seq<Field>): Fields
    decreases |fields|
  {
    if fields == [] then m else WriteFields(m[fields[0].key := fields[0]], fields[1..])
  }

  function WriteAll(m: Fields, es: seq<Err>): Fields
    decreases |es|
  {
    if es == [] then m else WriteAll(WriteFields(m, es[0].fields), es[1..])
  }

  predicate HasKey(fields: seq<Field>, k: string) {
    exists i :: 0 <= i < |fields| && fields[i].key == k
  }

  /** The last of the fields with a key wins within one error. */
  function LastField(fields: seq<Field>, k: string): (f: Field)
    requires HasKey(fields, k)
    ensures f in fields && f.key == k
  {
    if fields[|fields| - 1].key == k then fields[|fields| - 1] else LastField(fields[..|fields| - 1], k)
  }

  lemma {:induction false} WriteFieldsLast(m: Fields, fields: seq<Field>, f: Field)
    ensures WriteFields(m, fields + [f]) == WriteFields(m, fields)[f.key := f]
    decreases |fields|
  {
    if fields == [] {
      assert ([] + [f])[1..] == [];
    } else {
      assert (fields + [f])[1..] == fields[1..] + [f];
      WriteFieldsLast(m[fields[0].key := fields[0]], fields[1..], f);
    }
  }

  lemma {:induction false} WrittenField(m: Fields, fields: seq<Field>, k: string)
    ensures k in WriteFields(m, fields) <==> k in m || HasKey(fields, k)
    ensures HasKey(fields, k) ==> WriteFields(m, fields)[k] == LastField(fields, k)
    ensures !HasKey(fields, k) && k in m ==> WriteFields(m, fields)[k] == m[k]
    decreases |fields|
  {
    if fields != [] {
      var front, f := fields[..|fields| - 1], fields[|fields| - 1];
      assert fields == front + [f];
      WriteFieldsLast(m, front, f);
      WrittenField(m, front, k);
      assert HasKey(fields, k) <==> HasKey(front, k) || f.key == k by {
        assert forall i :: 0 <= i < |front| ==> front[i] == fields[i];
      }
    }
  }

  lemma {:induction false} WriteAllAppend(m: Fields, a: seq<Err>, b: seq<Err>)
    ensures WriteAll(m, a + b) == WriteAll(WriteAll(m, a), b)
    decreases |a|
  {
    if a == [] {
      assert a + b == b;
    } else {
      assert (a + b)[1..] == a[1..] + b;
      WriteAllAppend(WriteFields(m, a[0].fields), a[1..], b);
    }
  }

  ghost predicate Carried(es: seq<Err>, k: string) {
    exists i {:trigger HasKey(es[i].fields, k)} :: 0 <= i < |es| && HasKey(es[i].fields, k)
  }

  /** `f` is the field that error `i` has for the key, and no later error carries the key. */
  ghost predicate IsLast(es: seq<Err>, i: nat, k: string, f: Field) {
    && i < |es| && HasKey(es[i].fields, k) && f == LastField(es[i].fields, k)
    && forall j {:trigger HasKey(es[j].fields, k)} :: i < j < |es| ==> !HasKey(es[j].fields, k)
  }

  ghost predicate FromLast(es: seq<Err>, k: string, f: Field) {
    exists i: nat :: IsLast(es, i, k, f)
  }

  lemma CarriedLast(front: seq<Err>, e: Err, k: string)
    ensures Carried(front + [e], k) <==> Carried(front, k) || HasKey(e.fields, k)
  {
    var es := front + [e];
    if Carried(es, k) {
      var i :| 0 <= i < |es| && HasKey(es[i].fields, k);
      assert i < |front| ==> HasKey(front[i].fields, k);
    }
    if Carried(front, k) {
      var i :| 0 <= i < |front| && HasKey(front[i].fields, k);
      assert HasKey(es[i].fields, k);
    }
    if HasKey(e.fields, k) {
      assert HasKey(es[|front|].fields, k);
    }
  }

  /** The last carrier of a list decides; without one the earlier field stays. */
  lemma {:induction false} WrittenByLast(m: Fields, es: seq<Err>, k: string)
    ensures k in WriteAll(m, es) <==> k in m || Carried(es, k)
    ensures !Carried(es, k) && k in m ==> WriteAll(m, es)[k] == m[k]
    ensures Carried(es, k) ==> FromLast(es, k, WriteAll(m, es)[k])
    decreases |es|
  {
    if es != [] {
      var front, e := es[..|es| - 1], es[|es| - 1];
      assert es == front + [e];
      CarriedLast(front, e, k);
      WriteAllAppend(m, front, [e]);
      assert WriteAll(WriteAll(m, front), [e]) == WriteFields(WriteAll(m, front), e.fields);
      WrittenByLast(m, front, k);
      WrittenField(WriteAll(m, front), e.fields, k);
      var f := if Carried(es, k) then WriteAll(m, es)[k] else Field("", "");
      if HasKey(e.fields, k) {
        assert IsLast(es, |es| - 1, k, f);
      } else if Carried(front, k) {
        var i: nat :| IsLast(front, i, k, f);
        assert IsLast(es, i, k, f) by {
          assert forall j :: 0 <= j < |front| ==> es[j] == front[j];
        }
      }
    }
  }

  // ---------- the deepest field wins ----------

  ghost predicate CarriedAtDepth(es: seq<Err>, d: nat, k: string) {
    Carried(Level(es, d), k)
  }

  ghost predicate CarriedAnywhere(es: seq<Err>, k: string) {
    exists d: nat :: CarriedAtDepth(es, d, k)
  }

  /** `f` is the field of the last carrier at depth `d`, and no greater depth carries the key. */
  ghost predicate IsDeepest(es: seq<Err>, d: nat, k: string, f: Field) {
    && FromLast(Level(es, d), k, f)
    && forall e: nat {:trigger CarriedAtDepth(es, e, k)} :: e > d ==> !CarriedAtDepth(es, e, k)
  }

  ghost predicate FromDeepest(es: seq<Err>, k: string, f: Field) {
    exists d: nat :: IsDeepest(es, d, k, f)
  }

  lemma {:induction false} NothingBelowNothing(d: nat, k: string)
    ensures !CarriedAtDepth([], d, k)
  {
    if d > 0 {
      NothingBelowNothing(d - 1, k);
      assert CarriedAtDepth([], d, k) == CarriedAtDepth([], d - 1, k);
    }
  }

  lemma DeeperByOne(es: seq<Err>, d: nat, k: string)
    ensures CarriedAtDepth(es, d + 1, k) == CarriedAtDepth(Below(es), d, k)
  {}

  lemma CarriedHereOrBelow(es: seq<Err>, k: string)
    ensures CarriedAnywhere(es, k) <==> Carried(es, k) || CarriedAnywhere(Below(es), k)
  {
    if CarriedAnywhere(es, k) {
      var d: nat :| CarriedAtDepth(es, d, k);
      if d > 0 {
        DeeperByOne(es, d - 1, k);
      }
    }
    if Carried(es, k) {
      assert CarriedAtDepth(es, 0, k);
    }
    if CarriedAnywhere(Below(es), k) {
      var d: nat :| CarriedAtDepth(Below(es), d, k);
      DeeperByOne(es, d, k);
    }
  }

  lemma DeepestBelow(es: seq<Err>, k: string, f: Field)
    requires FromDeepest(Below(es), k, f)
    ensures FromDeepest(es, k, f)
  {
    var d: nat :| IsDeepest(Below(es), d, k, f);
    forall e: nat | e > d + 1 ensures !CarriedAtDepth(es, e, k) {
      DeeperByOne(es, e - 1, k);
    }
    assert IsDeepest(es, d + 1, k, f);
  }

  lemma DeepestHere(es: seq<Err>, k: string, f: Field)
    requires FromLast(es, k, f) && !CarriedAnywhere(Below(es), k)
    ensures FromDeepest(es, k, f)
  {
    forall e: nat | e > 0 ensures !CarriedAtDepth(es, e, k) {
      DeeperByOne(es, e - 1, k);
    }
    assert IsDeepest(es, 0, k, f);
  }

  /** Writing level by level leaves, for every key of the tree, its deepest field. */
  lemma {:induction false} DeepestIsWritten(m: Fields, es: seq<Err>, k: string)
    ensures k in WriteAll(m, Levels(es)) <==> k in m || CarriedAnywhere(es, k)
    ensures !CarriedAnywhere(es, k) && k in m ==> WriteAll(m, Levels(es))[k] == m[k]
    ensures CarriedAnywhere(es, k) ==> FromDeepest(es, k, WriteAll(m, Levels(es))[k])
    decreases SizeAll(es)
  {
    if es == [] {
      forall d: nat ensures !CarriedAtDepth(es, d, k) {
        NothingBelowNothing(d, k);
      }
    } else {
      SizeBelow(es);
      WriteAllAppend(m, es, Levels(Below(es)));
      WrittenByLast(m, es, k);
      CarriedHereOrBelow(es, k);
      DeepestIsWritten(WriteAll(m, es), Below(es), k);
      if CarriedAnywhere(Below(es), k) {
        DeepestBelow(es, k, WriteAll(m, Levels(es))[k]);
      } else if Carried(es, k) {
        DeepestHere(es, k, WriteAll(m, Levels(es))[k]);
      }
    }
  }

  /** The inner loop of `UnwrapFields`. */
  method WriteErrorFields(fields: Fields, own: seq<Field>) returns (r: Fields)
    ensures r == WriteFields(fields, own)
  {
    r := fields;
    var i := 0;
    assert own[0..] == own;
    while i < |own|
      invariant 0 <= i <= |own|
      invariant WriteFields(fields, own) == WriteFields(r, own[i..])
    {
      var f := own[i];
      assert own[i..][1..] == own[i + 1..];
      r := r[f.key := f];
      i := i + 1;
    }
  }

  /** `UnwrapFields`, with the fields under their keys: there is one for every key that occurs in
      the tree, taken from the last error in level order among the deepest that carry it. */
  method UnwrapFields(root: Err) returns (fields: Fields)
    ensures forall k :: k in fields <==> CarriedAnywhere([root], k)
    ensures forall k :: k in fields ==> FromDeepest([root], k, fields[k])
  {
    fields := map[];
    var errs := [root];
    VisitsAreLevels(errs);
    ghost var goal := WriteAll(map[], Levels(errs));
    while |errs| > 0
      invariant goal == WriteAll(fields, Visits(errs))
      decreases SizeAll(errs)
    {
      var e := errs[0];
      QueueShrinks(errs);
      assert Visits(errs)[0] == e && Visits(errs)[1..] == Visits(errs[1..] + e.wrapped);
      errs := errs[1..];
      fields := WriteErrorFields(fields, e.fields);
      errs := errs + e.wrapped;
    }
    forall k
      ensures k in fields <==> CarriedAnywhere([root], k)
      ensures k in fields ==> FromDeepest([root], k, fields[k])
    {
      DeepestIsWritten(map[], [root], k);
    }
  }
}
