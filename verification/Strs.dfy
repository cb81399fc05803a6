/** Options, and the searching, splitting and joining of strings that the Go standard library
    gives the modelled code. */
module Strs {

  datatype Option<+T> = None | Some(value: T) {
    predicate IsFailure() { None? }

    function PropagateFailure<U>(): Option<U>
      requires None?
    {
      None
    }

    function Extract(): T
      requires Some?
    {
      value
    }
  }

  predicate Lacks(s: string, c: char) { forall k | 0 <= k < |s| :: s[k] != c }

  /** Position of the first `c` in `s`, or -1. */
  function Index(s: string, c: char): (i: int)
    ensures -1 <= i < |s|
    ensures i == -1 <==> Lacks(s, c)
    ensures i >= 0 ==> s[i] == c && forall k | 0 <= k < i :: s[k] != c
  {
    IndexFrom(s, c, 0)
  }

  function IndexFrom(s: string, c: char, from: nat): (i: int)
    requires from <= |s|
    ensures i == -1 || from <= i < |s|
    ensures i == -1 <==> forall k | from <= k < |s| :: s[k] != c
    ensures i >= 0 ==> s[i] == c && forall k | from <= k < i :: s[k] != c
    decreases |s| - from
  {
    if from == |s| then -1 else if s[from] == c then from else IndexFrom(s, c, from + 1)
  }

  /** Position of the last `c` in `s`, or -1. */
  function LastIndex(s: string, c: char): (i: int)
    ensures -1 <= i < |s|
    ensures i == -1 <==> Lacks(s, c)
    ensures i >= 0 ==> s[i] == c && forall k | i < k < |s| :: s[k] != c
  {
    LastIndexBefore(s, c, |s|)
  }

  function LastIndexBefore(s: string, c: char, end: nat): (i: int)
    requires end <= |s|
    ensures -1 <= i < end
    ensures i == -1 <==> forall k | 0 <= k < end :: s[k] != c
    ensures i >= 0 ==> s[i] == c && forall k | i < k < end :: s[k] != c
  {
    if end == 0 then -1 else if s[end - 1] == c then end - 1 else LastIndexBefore(s, c, end - 1)
  }

  lemma IndexIs(s: string, c: char, i: nat)
    requires i < |s| && s[i] == c && forall k | 0 <= k < i :: s[k] != c
    ensures Index(s, c) == i
  {
  }

  lemma LastIndexIs(s: string, c: char, i: nat)
    requires i < |s| && s[i] == c && forall k | i < k < |s| :: s[k] != c
    ensures LastIndex(s, c) == i
  {
  }

  lemma Cut(s: string, i: nat)
    requires i < |s|
    ensures s == s[..i] + [s[i]] + s[i + 1..]
  {
  }

  lemma Glue(a: string, c: char, b: string)
    ensures var s := a + [c] + b;
            s[..|a|] == a && s[|a|] == c && s[|a| + 1..] == b
  {
  }

  lemma IndexOfSeparator(a: string, c: char, b: string)
    requires Lacks(a, c)
    ensures var s := a + [c] + b;
            Index(s, c) == |a| && s[..|a|] == a && s[|a| + 1..] == b
  {
    Glue(a, c, b);
    assert forall k | 0 <= k < |a| :: (a + [c] + b)[k] == a[k];
    IndexIs(a + [c] + b, c, |a|);
  }

  lemma LastIndexOfSeparator(a: string, c: char, b: string)
    requires Lacks(b, c)
    ensures var s := a + [c] + b;
            LastIndex(s, c) == |a| && s[..|a|] == a && s[|a| + 1..] == b
  {
    Glue(a, c, b);
    assert forall k | |a| < k < |a + [c] + b| :: (a + [c] + b)[k] == b[k - |a| - 1];
    LastIndexIs(a + [c] + b, c, |a|);
  }

  lemma Shift(p: string, s: string)
    ensures forall k | 0 <= k < |s| :: (p + s)[|p| + k] == s[k]
    ensures forall k | |p| <= k < |p| + |s| :: (p + s)[k] == s[k - |p|]
    ensures forall k | 0 <= k < |p| :: (p + s)[k] == p[k]
  {
  }

  lemma ShiftSlices(p: string, s: string, i: nat)
    requires i < |s|
    ensures (p + s)[..|p| + i] == p + s[..i] && (p + s)[|p| + i + 1..] == s[i + 1..]
  {
  }

  lemma LastIndexShift(p: string, s: string, c: char, whole: string)
    requires whole == p + s && LastIndex(s, c) >= 0
    ensures LastIndex(whole, c) == |p| + LastIndex(s, c)
  {
    Shift(p, s);
    var i := LastIndex(s, c);
    assert whole[|p| + i] == c;
    LastIndexIs(whole, c, |p| + i);
  }

  lemma IndexShift(p: string, s: string, c: char, whole: string)
    requires whole == p + s && Lacks(p, c)
    ensures Index(whole, c) == if Index(s, c) == -1 then -1 else |p| + Index(s, c)
  {
    Shift(p, s);
    var i := Index(s, c);
    if i >= 0 {
      assert whole[|p| + i] == c;
      IndexIs(whole, c, |p| + i);
    } else {
      assert Lacks(whole, c);
    }
  }

  predicate Segments(segs: seq<string>) {
    |segs| > 0 && forall k | 0 <= k < |segs| :: Lacks(segs[k], '/')
  }

  /** `strings.Split(s, "/")` */
  function Split(s: string): (segs: seq<string>)
    ensures Segments(segs)
    decreases |s|
  {
    var i := Index(s, '/');
    if i == -1 then [s]
    else
      var first, rest := s[..i], Split(s[i + 1..]);
      assert Lacks(first, '/');
      [first] + rest
  }

  /** `strings.Join(segs, "/")` */
  function Join(segs: seq<string>): string {
    if |segs| == 0 then ""
    else if |segs| == 1 then segs[0]
    else segs[0] + ['/'] + Join(segs[1..])
  }

  lemma JoinCons(seg: string, segs: seq<string>)
    requires |segs| > 0
    ensures Join([seg] + segs) == seg + ['/'] + Join(segs)
  {
    assert ([seg] + segs)[1..] == segs;
  }

  lemma {:induction false} JoinSplit(s: string)
    ensures Join(Split(s)) == s
    decreases |s|
  {
    var i := Index(s, '/');
    if i >= 0 {
      var first, rest := s[..i], s[i + 1..];
      JoinSplit(rest);
      JoinCons(first, Split(rest));
      Cut(s, i);
    }
  }

  lemma SplitFirst(first: string, rest: string)
    requires Lacks(first, '/')
    ensures Split(first + ['/'] + rest) == [first] + Split(rest)
  {
    IndexOfSeparator(first, '/', rest);
  }

  lemma {:induction false} SplitJoin(segs: seq<string>)
    requires Segments(segs)
    ensures Split(Join(segs)) == segs
  {
    if |segs| > 1 {
      var first, more := segs[0], segs[1..];
      SplitJoin(more);
      SplitFirst(first, Join(more));
      assert segs == [first] + more;
    }
  }

  // ---------- Parts of a sequence ----------

  predicate Increasing(at: seq<nat>) { forall i, j | 0 <= i < j < |at| :: at[i] < at[j] }

  /** `picked` is what stands in `s` at the places `at`, in order, and these are exactly the places of
      what `wanted` holds of. */
  ghost predicate Picked<T>(s: seq<T>, wanted: T -> bool, at: seq<nat>, picked: seq<T>) {
    && Increasing(at) && (forall i: nat :: i in at <==> i < |s| && wanted(s[i]))
    && |picked| == |at| && forall j | 0 <= j < |at| :: at[j] < |s| && picked[j] == s[at[j]]
  }

  lemma PickedOneMore<T>(s: seq<T>, last: T, wanted: T -> bool, at: seq<nat>, picked: seq<T>)
    requires Picked(s, wanted, at, picked)
    ensures wanted(last) ==> Picked(s + [last], wanted, at + [|s|], picked + [last])
    ensures !wanted(last) ==> Picked(s + [last], wanted, at, picked)
  {
    var more := s + [last];
    assert forall j | 0 <= j < |at| :: at[j] in at;
    if wanted(last) {
      assert more[|s|] == last;
      forall i: nat ensures i in at + [|s|] <==> i < |more| && wanted(more[i]) {
        assert i in at + [|s|] <==> i in at || i == |s|;
      }
    }
  }

  /** `i` is the last place of what `wanted` holds of. */
  ghost predicate LastWhere<T>(s: seq<T>, wanted: T -> bool, i: nat) {
    i < |s| && wanted(s[i]) && forall j | i < j < |s| :: !wanted(s[j])
  }

  lemma LastWhereOneMore<T>(s: seq<T>, last: T, wanted: T -> bool, i: nat)
    ensures LastWhere(s + [last], wanted, i) <==> if wanted(last) then i == |s| else LastWhere(s, wanted, i)
  {
    var more := s + [last];
    assert more[|s|] == last;
    assert forall j | 0 <= j < |s| :: more[j] == s[j];
    if LastWhere(s, wanted, i) && !wanted(last) {
      forall j | i < j < |more| ensures !wanted(more[j]) {
        if j < |s| { assert !wanted(s[j]); }
      }
    }
    if LastWhere(more, wanted, i) {
      forall j | i < j < |s| ensures !wanted(s[j]) {
        assert !wanted(more[j]);
      }
    }
  }
}
