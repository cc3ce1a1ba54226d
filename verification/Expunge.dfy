/** The numbers reported while deleted messages are removed in ascending order. */
module Expunge {
  import opened Common

  /** Number of the message at `i` after `gone` earlier ones were removed. */
  function Reports(deleted: seq<bool>, i: nat, gone: nat): (r: seq<nat>)
    requires gone <= i <= |deleted|
    decreases |deleted| - i
  {
    if i == |deleted| then []
    else if deleted[i] then [i + 1 - gone] + Reports(deleted, i + 1, gone + 1)
    else Reports(deleted, i + 1, gone)
  }

  function Survivors<T>(xs: seq<T>, deleted: seq<bool>): (r: seq<T>)
    requires |xs| == |deleted|
    ensures |r| <= |xs|
  {
    if xs == [] then []
    else Survivors(xs[..|xs| - 1], deleted[..|xs| - 1]) + if deleted[|xs| - 1] then [] else [xs[|xs| - 1]]
  }

  /** Section 7.4.1 of RFC 3501: the entry goes, and all later ones move down by one.
      None when there is no such entry. */
  function Remove<T>(xs: seq<T>, number: nat): Option<seq<T>> {
    if 1 <= number <= |xs| then Some(xs[..number - 1] + xs[number..]) else None
  }

  function Replay<T>(xs: seq<T>, numbers: seq<nat>): Option<seq<T>> {
    if numbers == [] then Some(xs)
    else match Remove(xs, numbers[0])
         case None => None
         case Some(ys) => Replay(ys, numbers[1..])
  }

  lemma SurvivorsNext<T>(xs: seq<T>, deleted: seq<bool>, i: nat)
    requires i < |xs| == |deleted|
    ensures Survivors(xs[..i + 1], deleted[..i + 1])
         == Survivors(xs[..i], deleted[..i]) + if deleted[i] then [] else [xs[i]]
  {
    assert xs[..i + 1][..i] == xs[..i] && deleted[..i + 1][..i] == deleted[..i];
  }

  lemma RemoveNext<T>(done: seq<T>, xs: seq<T>, i: nat)
    requires i < |xs|
    ensures Remove(done + xs[i..], |done| + 1) == Some(done + xs[i + 1..])
  {
    var all := done + xs[i..];
    assert all[..|done|] == done && all[|done| + 1..] == xs[i + 1..];
  }

  /** Whether a message from `i` on is deleted. */
  predicate SomeDeleted(deleted: seq<bool>, i: nat) {
    exists k :: i <= k < |deleted| && deleted[k]
  }

  /** A client that has not been told of the messages from `i` on cannot follow when
      one of them is reported. */
  lemma {:induction false} ReplayBeyond<T>(ys: seq<T>, deleted: seq<bool>, i: nat, gone: nat)
    requires |ys| + gone <= i <= |deleted|
    ensures Replay(ys, Reports(deleted, i, gone)) == if SomeDeleted(deleted, i) then None else Some(ys)
    decreases |deleted| - i
  {
    if i < |deleted| && !deleted[i] {
      ReplayBeyond(ys, deleted, i + 1, gone);
    }
  }

  /** Half-way through: the survivors so far, and all that was not looked at yet. */
  lemma {:induction false} ReplayFrom<T>(xs: seq<T>, deleted: seq<bool>, i: nat, gone: nat)
    requires gone <= i <= |xs| <= |deleted|
    requires |Survivors(xs[..i], deleted[..i])| == i - gone
    ensures Replay(Survivors(xs[..i], deleted[..i]) + xs[i..], Reports(deleted, i, gone))
         == if SomeDeleted(deleted, |xs|) then None else Some(Survivors(xs, deleted[..|xs|]))
    decreases |xs| - i
  {
    hide Survivors, Remove, SomeDeleted;
    var done := Survivors(xs[..i], deleted[..i]);
    if i == |xs| {
      assert xs[..i] == xs && done + xs[i..] == done;
      ReplayBeyond(done, deleted, i, gone);
    } else {
      assert deleted[..|xs|][..i] == deleted[..i] && deleted[..|xs|][..i + 1] == deleted[..i + 1];
      SurvivorsNext(xs, deleted[..|xs|], i);
      if deleted[i] {
        ReplayFrom(xs, deleted, i + 1, gone + 1);
        RemoveNext(done, xs, i);
        assert done + [] == done;
        assert Reports(deleted, i, gone)[1..] == Reports(deleted, i + 1, gone + 1);
      } else {
        ReplayFrom(xs, deleted, i + 1, gone);
        assert done + [xs[i]] + xs[i + 1..] == done + xs[i..];
      }
    }
  }

  /** A client that applies the reported numbers one by one always removes an entry it
      has, and ends with exactly the surviving messages in order. */
  lemma ClientFollows<T>(xs: seq<T>, deleted: seq<bool>)
    requires |xs| == |deleted|
    ensures Replay(xs, Reports(deleted, 0, 0)) == Some(Survivors(xs, deleted))
  {
    ClientFollowsExactly(xs, deleted);
    assert deleted[..|xs|] == deleted;
  }

  /** A client that knows the first messages only can follow if and only if none of the
      others is removed. */
  lemma ClientFollowsExactly<T>(xs: seq<T>, deleted: seq<bool>)
    requires |xs| <= |deleted|
    ensures Replay(xs, Reports(deleted, 0, 0))
         == if SomeDeleted(deleted, |xs|) then None else Some(Survivors(xs, deleted[..|xs|]))
  {
    ReplayFrom(xs, deleted, 0, 0);
    assert xs[0..] == xs && Survivors(xs[..0], deleted[..0]) + xs == xs;
  }

  /** Messages behind the last deleted one all survive. */
  lemma {:induction false} SurvivorsTail<T>(xs: seq<T>, deleted: seq<bool>, n: nat)
    requires n <= |xs| == |deleted| && !SomeDeleted(deleted, n)
    ensures Survivors(xs, deleted) == Survivors(xs[..n], deleted[..n]) + xs[n..]
  {
    var m := |xs| - 1;
    if n == |xs| {
      assert xs[..n] == xs && deleted[..n] == deleted;
    } else {
      SurvivorsTail(xs[..m], deleted[..m], n);
      assert xs[..m][..n] == xs[..n] && deleted[..m][..n] == deleted[..n];
      assert xs[..m][n..] + [xs[m]] == xs[n..];
    }
  }

  /** The scan may start at the first message that was modified. */
  lemma {:induction false} ReportsSkip(deleted: seq<bool>, first: nat, i: nat)
    requires i <= first <= |deleted| && forall k :: 0 <= k < first ==> !deleted[k]
    ensures Reports(deleted, i, 0) == Reports(deleted, first, 0)
    decreases first - i
  {
    if i < first {
      ReportsSkip(deleted, first, i + 1);
    }
  }

  lemma {:induction false} SurvivorsMap<T, U>(xs: seq<T>, ys: seq<U>, deleted: seq<bool>, related: (T, U) -> bool)
    requires |xs| == |ys| == |deleted|
    requires forall i :: 0 <= i < |xs| && !deleted[i] ==> related(xs[i], ys[i])
    ensures |Survivors(xs, deleted)| == |Survivors(ys, deleted)|
    ensures forall i :: 0 <= i < |Survivors(xs, deleted)| ==>
              related(Survivors(xs, deleted)[i], Survivors(ys, deleted)[i])
  {
    if xs != [] {
      SurvivorsMap(xs[..|xs| - 1], ys[..|xs| - 1], deleted[..|xs| - 1], related);
    }
  }

  /** Conversely, what fails for a survivor fails in the result. */
  lemma {:induction false} SurvivorsWitness<T, U>(xs: seq<T>, ys: seq<U>, deleted: seq<bool>, at: nat)
    returns (k: nat)
    requires |xs| == |ys| == |deleted| && at < |xs| && !deleted[at]
    ensures k < |Survivors(xs, deleted)| == |Survivors(ys, deleted)|
    ensures Survivors(xs, deleted)[k] == xs[at] && Survivors(ys, deleted)[k] == ys[at]
  {
    var n := |xs| - 1;
    SurvivorsMap(xs[..n], ys[..n], deleted[..n], (x, y) => true);
    if at == n {
      k := |Survivors(xs[..n], deleted[..n])|;
    } else {
      k := SurvivorsWitness(xs[..n], ys[..n], deleted[..n], at);
    }
  }
}
