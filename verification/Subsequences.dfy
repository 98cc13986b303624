/** Filtering a sequence: the positions kept, in order, none left out. */
module Subsequences {
  ghost predicate Increasing(at: seq<nat>) {
    forall k, l | 0 <= k < l < |at| :: at[k] < at[l]
  }

  ghost predicate Selects(keep: seq<bool>, at: seq<nat>) {
    && Increasing(at)
    && (forall k | 0 <= k < |at| :: at[k] < |keep| && keep[at[k]])
    && (forall i: nat | i < |keep| && keep[i] :: i in at)
  }

  function Picked<T>(s: seq<T>, keep: seq<bool>): seq<T>
    requires |s| == |keep|
  {
    if s == [] then []
    else
      var last := |s| - 1;
      Picked(s[..last], keep[..last]) + if keep[last] then [s[last]] else []
  }

  lemma {:induction false} PickedAt<T>(s: seq<T>, keep: seq<bool>) returns (at: seq<nat>)
    requires |s| == |keep|
    ensures Selects(keep, at)
    ensures |Picked(s, keep)| == |at| && forall k | 0 <= k < |at| :: Picked(s, keep)[k] == s[at[k]]
  {
    if s == [] {
      return [];
    }
    var last := |s| - 1;
    var before := PickedAt(s[..last], keep[..last]);
    at := before + if keep[last] then [last] else [];
    forall i: nat | i < |keep| && keep[i] ensures i in at {
      assert i < last ==> keep[..last][i] && i in before;
    }
  }

  /** The positions kept are determined. */
  lemma {:induction false} SelectsOnce(keep: seq<bool>, a: seq<nat>, b: seq<nat>)
    requires Selects(keep, a) && Selects(keep, b)
    ensures a == b
    decreases |keep|
  {
    if keep == [] {
      SomethingKept(keep, a);
      SomethingKept(keep, b);
    } else {
      var last := |keep| - 1;
      SelectsEarlier(keep, a);
      SelectsEarlier(keep, b);
      SelectsOnce(keep[..last], Earlier(a, last), Earlier(b, last));
    }
  }

  lemma SomethingKept(keep: seq<bool>, at: seq<nat>)
    requires Selects(keep, at)
    ensures at != [] ==> keep != [] && exists i: nat | i < |keep| :: keep[i]
  {
    if at != [] {
      assert at[0] < |keep| && keep[at[0]];
    }
  }

  lemma NoneKept(keep: seq<bool>, at: seq<nat>)
    requires Selects(keep, at) && at == []
    ensures forall i | 0 <= i < |keep| :: !keep[i]
  {
  }

  function Earlier(at: seq<nat>, last: nat): seq<nat> {
    if at != [] && at[|at| - 1] == last then at[..|at| - 1] else at
  }

  lemma SelectsEarlier(keep: seq<bool>, at: seq<nat>)
    requires keep != [] && Selects(keep, at)
    ensures Selects(keep[..|keep| - 1], Earlier(at, |keep| - 1))
    ensures at == Earlier(at, |keep| - 1) + if keep[|keep| - 1] then [|keep| - 1] else []
  {
    var last := |keep| - 1;
    assert forall k | 0 <= k < |at| :: at[k] <= at[|at| - 1];
    assert keep[last] ==> last in at;
    assert at != [] ==> at[|at| - 1] <= last;
    forall i: nat | i < last && keep[..last][i] ensures i in Earlier(at, last) {
      assert keep[i] && i in at;
    }
    forall k | 0 <= k < |Earlier(at, last)| ensures Earlier(at, last)[k] < last {
      assert at[k] < |keep| && keep[at[k]];
    }
  }

  lemma {:induction false} PickedHead<T>(s: seq<T>, keep: seq<bool>)
    requires |s| == |keep| && s != []
    ensures Picked(s, keep) == (if keep[0] then [s[0]] else []) + Picked(s[1..], keep[1..])
  {
    if |s| > 1 {
      var last := |s| - 1;
      PickedHead(s[..last], keep[..last]);
      assert s[..last][1..] == s[1..][..last - 1] && keep[..last][1..] == keep[1..][..last - 1];
    }
  }

  // ---------------------------------------------------------------- one more in front

  function Consed(first: bool, rest: seq<nat>): (r: seq<nat>)
    ensures |r| == |rest| + (if first then 1 else 0)
    ensures first ==> r[0] == 0 && forall k | 0 <= k < |rest| :: r[k + 1] == rest[k] + 1
    ensures !first ==> forall k | 0 <= k < |rest| :: r[k] == rest[k] + 1
  {
    (if first then [0] else []) + seq(|rest|, k requires 0 <= k < |rest| => rest[k] + 1)
  }

  lemma ConsedIncreases(first: bool, rest: seq<nat>)
    requires Increasing(rest)
    ensures Increasing(Consed(first, rest))
  {
    hide Consed;
    var at, n: nat := Consed(first, rest), if first then 1 else 0;
    forall k, l | 0 <= k < l < |at| ensures at[k] < at[l] {
      assert at[l] == rest[l - n] + 1;
      assert k >= n ==> at[k] == rest[k - n] + 1 && rest[k - n] < rest[l - n];
    }
  }

  lemma ConsedHolds(first: bool, rest: seq<nat>, i: nat)
    requires if i == 0 then first else i - 1 in rest
    ensures i in Consed(first, rest)
  {
    hide Consed;
    var at, n: nat := Consed(first, rest), if first then 1 else 0;
    if i == 0 {
      assert at[0] == 0;
    } else {
      var k :| 0 <= k < |rest| && rest[k] == i - 1;
      assert at[k + n] == i;
    }
  }

  lemma ConsedSelects(keep: seq<bool>, rest: seq<nat>)
    requires keep != [] && Selects(keep[1..], rest)
    ensures Selects(keep, Consed(keep[0], rest))
  {
    hide Consed;
    var at, n: nat := Consed(keep[0], rest), if keep[0] then 1 else 0;
    ConsedIncreases(keep[0], rest);
    forall k | 0 <= k < |at| ensures at[k] < |keep| && keep[at[k]] {
      assert k >= n ==> at[k] == rest[k - n] + 1 && keep[1..][rest[k - n]];
    }
    forall i: nat | i < |keep| && keep[i] ensures i in at {
      assert i > 0 ==> keep[1..][i - 1];
      ConsedHolds(keep[0], rest, i);
    }
  }
}
