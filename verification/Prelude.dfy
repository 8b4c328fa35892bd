/** Shared vocabulary: optional values, bytes, and order-preserving merging without repetition. */
module Prelude {

  datatype Option<+T> = None | Some(value: T)

  type byte = b: int | 0 <= b < 0x100

  ghost predicate Distinct<T>(s: seq<T>)
  {
    forall i, j :: 0 <= i < j < |s| ==> s[i] != s[j]
  }

  /** Append `x` unless it is already present. */
  function AddOnce<T(==)>(s: seq<T>, x: T): seq<T>
  {
    if x in s then s else s + [x]
  }

  /** Offer every item of `incoming`, in order, to `existing`. */
  function Merge<T(==)>(existing: seq<T>, incoming: seq<T>): seq<T>
    decreases |incoming|
  {
    if incoming == [] then existing else Merge(AddOnce(existing, incoming[0]), incoming[1..])
  }

  /** Keep the first occurrence of every item. */
  function Dedup<T(==)>(s: seq<T>): seq<T>
  {
    Merge([], s)
  }

  /** `Merge` extends `existing`, adds exactly the members of `incoming`, and introduces no repetition. */
  lemma {:induction false} MergeMeaning<T>(existing: seq<T>, incoming: seq<T>)
    ensures existing <= Merge(existing, incoming)
    ensures forall x :: x in Merge(existing, incoming) <==> x in existing || x in incoming
    ensures Distinct(existing) ==> Distinct(Merge(existing, incoming))
    decreases |incoming|
  {
    if incoming != [] {
      MergeMeaning(AddOnce(existing, incoming[0]), incoming[1..]);
      assert incoming == [incoming[0]] + incoming[1..];
    }
  }

  /** Nothing changes when everything offered is already present. */
  lemma {:induction false} MergeAbsorbs<T>(existing: seq<T>, incoming: seq<T>)
    requires forall x :: x in incoming ==> x in existing
    ensures Merge(existing, incoming) == existing
    decreases |incoming|
  {
    if incoming != [] {
      MergeAbsorbs(existing, incoming[1..]);
    }
  }

  lemma {:induction false} MergeAppend<T>(existing: seq<T>, a: seq<T>, b: seq<T>)
    ensures Merge(existing, a + b) == Merge(Merge(existing, a), b)
    decreases |a|
  {
    if a == [] {
      assert a + b == b;
    } else {
      assert (a + b)[1..] == a[1..] + b;
      MergeAppend(AddOnce(existing, a[0]), a[1..], b);
    }
  }

  /** Merging a sequence already free of repetition, and disjoint from `existing`, is concatenation. */
  lemma {:induction false} MergeDistinct<T>(existing: seq<T>, incoming: seq<T>)
    requires Distinct(existing + incoming)
    ensures Merge(existing, incoming) == existing + incoming
    decreases |incoming|
  {
    if incoming == [] {
      assert existing + incoming == existing;
    } else {
      var whole := existing + incoming;
      assert forall i :: 0 <= i < |existing| ==> whole[i] == existing[i];
      assert whole[|existing|] == incoming[0];
      assert incoming[0] !in existing;
      assert (existing + [incoming[0]]) + incoming[1..] == whole;
      MergeDistinct(existing + [incoming[0]], incoming[1..]);
    }
  }

  /** The items of `incoming` that `existing` lacks. */
  function Missing<T(==)>(existing: seq<T>, incoming: seq<T>): seq<T>
  {
    if incoming == [] then [] else
      (if incoming[0] in existing then [] else [incoming[0]]) + Missing(existing, incoming[1..])
  }

  lemma {:induction false} MissingTwice<T>(a: seq<T>, b: seq<T>, incoming: seq<T>)
    ensures Missing(b, Missing(a, incoming)) == Missing(a + b, incoming)
  {
    if incoming != [] {
      MissingTwice(a, b, incoming[1..]);
      var rest := Missing(a, incoming[1..]);
      assert ([incoming[0]] + rest)[1..] == rest;
      assert [] + rest == rest;
    }
  }

  lemma {:induction false} MissingShort<T>(existing: seq<T>, incoming: seq<T>)
    ensures |Missing(existing, incoming)| <= |incoming|
  {
    if incoming != [] {
      MissingShort(existing, incoming[1..]);
    }
  }

  lemma MergeCons<T>(existing: seq<T>, x: T, rest: seq<T>)
    ensures Merge(existing, [x] + rest) == Merge(AddOnce(existing, x), rest)
    ensures Dedup([x] + rest) == Merge([x], rest)
    ensures Missing(existing, [x] + rest) == (if x in existing then [] else [x]) + Missing(existing, rest)
  {
    assert ([x] + rest)[1..] == rest && [] + [x] == [x];
  }

  /** Merging appends the first occurrences of the missing items, in their order. */
  lemma {:induction false} MergeAppendsMissing<T>(existing: seq<T>, incoming: seq<T>)
    ensures Merge(existing, incoming) == existing + Dedup(Missing(existing, incoming))
    decreases |incoming|, 1
  {
    if incoming == [] {
      assert existing + [] == existing;
    } else {
      AppendsMissingStep(existing, incoming[0], incoming[1..]);
      assert incoming == [incoming[0]] + incoming[1..];
    }
  }

  lemma {:induction false} AppendsMissingStep<T>(existing: seq<T>, x: T, rest: seq<T>)
    ensures Merge(existing, [x] + rest) == existing + Dedup(Missing(existing, [x] + rest))
    decreases |rest| + 1, 0
  {
    hide Merge, Dedup, Missing;
    MergeCons(existing, x, rest);
    var others := Missing(existing, rest);
    if x in existing {
      MergeAppendsMissing(existing, rest);
      assert [] + others == others;
    } else {
      MergeAppendsMissing(existing + [x], rest);
      MissingShort(existing, rest);
      MergeAppendsMissing([x], others);
      MissingTwice(existing, [x], rest);
      MergeCons(existing, x, others);
      var later := Dedup(Missing([x], others));
      assert existing + ([x] + later) == (existing + [x]) + later;
    }
  }

  /** Removing repetition twice is removing it once. */
  lemma DedupIdempotent<T>(s: seq<T>)
    ensures Dedup(Dedup(s)) == Dedup(s)
  {
    MergeMeaning([], s);
    assert [] + Dedup(s) == Dedup(s);
    MergeDistinct([], Dedup(s));
  }

  lemma DedupMembers<T>(s: seq<T>)
    ensures forall x :: x in Dedup(s) <==> x in s
  {
    MergeMeaning([], s);
  }

  lemma DedupEmpty<T>(s: seq<T>)
    ensures Dedup(s) == [] <==> s == []
  {
    MergeMeaning([], s);
    assert s != [] ==> s[0] in Dedup(s);
  }

  /** The item at position `p` has not occurred before. */
  predicate OccursFirst<T(==)>(s: seq<T>, p: nat)
  {
    p < |s| && s[p] !in s[..p]
  }

  /** `at` selects, in order, exactly the positions of `s` whose item has not occurred before. */
  ghost predicate FirstPositions<T>(s: seq<T>, at: seq<nat>)
  {
    && (forall p: nat :: p in at <==> OccursFirst(s, p))
    && (forall i, j :: 0 <= i < j < |at| ==> at[i] < at[j])
  }

  lemma OccursFirstFront<T>(s: seq<T>, n: nat, p: nat)
    requires p < n <= |s|
    ensures OccursFirst(s[..n], p) <==> OccursFirst(s, p)
  {
    assert s[..n][..p] == s[..p];
  }

  /** `out` are the items of `s` at the positions `at`. */
  ghost predicate Selects<T>(s: seq<T>, at: seq<nat>, out: seq<T>)
  {
    |out| == |at| && forall i :: 0 <= i < |at| ==> at[i] < |s| && out[i] == s[at[i]]
  }

  lemma SelectsExtend<T>(s: seq<T>, n: nat, at: seq<nat>, out: seq<T>)
    requires |s| == n + 1 && Selects(s[..n], at, out)
    ensures Selects(s, at, out) && Selects(s, at + [n], out + [s[n]])
  {
  }

  lemma DedupLast<T>(front: seq<T>, x: T)
    ensures Dedup(front + [x]) == if x in front then Dedup(front) else Dedup(front) + [x]
  {
    MergeAppend([], front, [x]);
    MergeMeaning([], front);
    assert [x][1..] == [];
  }

  /** `Dedup` lists the first occurrences in their original order and nothing else. */
  lemma {:induction false} DedupFirstOccurrences<T>(s: seq<T>) returns (at: seq<nat>)
    ensures FirstPositions(s, at) && Selects(s, at, Dedup(s))
    decreases |s|, 1
  {
    if s == [] {
      at := [];
    } else {
      at := DedupStep(s, |s| - 1);
    }
  }

  lemma {:induction false} DedupStep<T>(s: seq<T>, n: nat) returns (at: seq<nat>)
    requires |s| == n + 1
    ensures FirstPositions(s, at) && Selects(s, at, Dedup(s))
    decreases n + 1, 0
  {
    hide Dedup, FirstPositions, Selects;
    at := DedupFirstOccurrences(s[..n]);
    FirstPositionsExtend(s, n, at);
    SelectsExtend(s, n, at, Dedup(s[..n]));
    DedupLast(s[..n], s[n]);
    assert s == s[..n] + [s[n]];
    if s[n] !in s[..n] {
      at := at + [n];
    }
  }

  lemma FirstPositionsExtend<T>(s: seq<T>, n: nat, at: seq<nat>)
    requires |s| == n + 1 && FirstPositions(s[..n], at)
    ensures FirstPositions(s, if s[n] in s[..n] then at else at + [n])
  {
    hide OccursFirst;
    var more := if s[n] in s[..n] then at else at + [n];
    OccursFirstBounds(s[..n]);
    OccursFirstBounds(s);
    OccursFirstLast(s, n);
    forall p: nat
      ensures p in more <==> OccursFirst(s, p)
    {
      if p < n {
        OccursFirstFront(s, n, p);
      }
    }
    assert forall i :: 0 <= i < |at| ==> at[i] in at;
  }

  lemma OccursFirstBounds<T>(s: seq<T>)
    ensures forall p: nat :: OccursFirst(s, p) ==> p < |s|
  {
  }

  lemma OccursFirstLast<T>(s: seq<T>, n: nat)
    requires |s| == n + 1
    ensures OccursFirst(s, n) <==> s[n] !in s[..n]
  {
  }
}
