/**
 * Sequences without repetitions, and the de-duplication that keeps the
 * first appearance of every element (the key order of an insertion-ordered
 * dictionary).
 */
module Unique {

  predicate Distinct<T(==)>(s: seq<T>)
  {
    forall i, j :: 0 <= i < j < |s| ==> s[i] != s[j]
  }

  /** The elements of `xs` in order of first appearance, each once. */
  function FirstSeen<T(==)>(xs: seq<T>): (r: seq<T>)
    ensures |r| <= |xs|
  {
    if xs == [] then []
    else
      var p := FirstSeen(xs[..|xs| - 1]);
      var x := xs[|xs| - 1];
      if x in p then p else p + [x]
  }

  /** A prefix one element longer is the shorter prefix and that element. */
  lemma PrefixSnoc<T>(s: seq<T>, k: nat)
    requires k < |s|
    ensures s[..k + 1] == s[..k] + [s[k]]
  {
  }

  /** De-duplication keeps exactly the elements it was given. */
  lemma {:induction false} FirstSeenMember<T>(xs: seq<T>, x: T)
    ensures x in FirstSeen(xs) <==> x in xs
  {
    if xs != [] {
      var init := xs[..|xs| - 1];
      FirstSeenMember(init, x);
      assert xs == init + [xs[|xs| - 1]];
    }
  }

  /** De-duplication leaves no repetitions. */
  lemma {:induction false} FirstSeenDistinct<T>(xs: seq<T>)
    ensures Distinct(FirstSeen(xs))
  {
    if xs != [] {
      FirstSeenDistinct(xs[..|xs| - 1]);
    }
  }

  /** Every element of the de-duplicated sequence comes from the input. */
  lemma FirstSeenFrom<T>(xs: seq<T>)
    ensures forall i :: 0 <= i < |FirstSeen(xs)| ==> FirstSeen(xs)[i] in xs
  {
    forall i | 0 <= i < |FirstSeen(xs)| ensures FirstSeen(xs)[i] in xs {
      FirstSeenMember(xs, FirstSeen(xs)[i]);
    }
  }

  /** One more element extends the first-seen order only if it is new. */
  lemma FirstSeenSnoc<T>(xs: seq<T>, x: T, before: seq<T>, after: seq<T>)
    requires before == FirstSeen(xs)
    requires after == if x in before then before else before + [x]
    ensures after == FirstSeen(xs + [x])
  {
    var ys := xs + [x];
    assert ys[..|ys| - 1] == xs;
    assert ys[|ys| - 1] == x;
  }

  /** De-duplicating a sequence that has no repetitions changes nothing. */
  lemma {:induction false} FirstSeenOfDistinct<T>(xs: seq<T>)
    requires Distinct(xs)
    ensures FirstSeen(xs) == xs
  {
    if xs != [] {
      var init := xs[..|xs| - 1];
      assert Distinct(init);
      FirstSeenOfDistinct(init);
      assert xs[|xs| - 1] !in init;
      assert init + [xs[|xs| - 1]] == xs;
    }
  }

  /** A run of copies of one element adds no more than that element once. */
  lemma {:induction false} FirstSeenRun<T>(xs: seq<T>, run: seq<T>, x: T)
    requires |run| >= 1 && forall i :: 0 <= i < |run| ==> run[i] == x
    ensures FirstSeen(xs + run) == FirstSeen(xs + [x])
  {
    if |run| == 1 {
      assert run == [x];
    } else {
      var shorter := run[..|run| - 1];
      FirstSeenRun(xs, shorter, x);
      var all := xs + run;
      assert all[..|all| - 1] == xs + shorter;
      assert all[|all| - 1] == x;
      assert (xs + shorter)[|xs|] == x;
      FirstSeenMember(xs + shorter, x);
    }
  }

  /** Two sequences with the same first-seen order keep it when extended by
      the same element. */
  lemma FirstSeenAppend<T>(xs: seq<T>, ys: seq<T>, x: T)
    requires FirstSeen(xs) == FirstSeen(ys)
    ensures FirstSeen(xs + [x]) == FirstSeen(ys + [x])
  {
    assert (xs + [x])[..|xs|] == xs;
    assert (ys + [x])[..|ys|] == ys;
  }
}
