/** Facts about the verdicts of whole runs: dependencies, blame and the look-ahead (executor.rs). */
module Runs {
  import opened Plan
  import opened Report
  import opened Executor

  // ---------------------------------------------------------------- the dependency rule

  ghost predicate Blames(v: Verdict) {
    v.Skipped? && v.reason.DependencyFailed?
  }

  /** What dependencies alone say about a verdict. */
  ghost predicate ObeysDependencies(diff: StateDiff, verdicts: seq<Verdict>, i: nat)
    requires i < |verdicts| <= |diff.operations|
  {
    var op := diff.operations[i];
    if Malformed(op, i) then verdicts[i] == Failed(UnsupportedOperation)
    else
      var blocked := Blockers(op.dependsOn, EligibleAfter(diff, verdicts[..i]));
      if blocked != [] then verdicts[i] == Skipped(DependencyFailed(blocked)) else !Blames(verdicts[i])
  }

  /** Verdicts that some execution could give, whatever its steps do. */
  ghost predicate Possible(diff: StateDiff, verdicts: seq<Verdict>) {
    |verdicts| <= |diff.operations| &&
    forall i | 0 <= i < |verdicts| :: ObeysDependencies(diff, verdicts, i)
  }

  lemma StepNeverBlames(job: Job, p: Progress, eligible: seq<bool>, i: nat)
    requires i < |job.diff.operations| && i < |eligible|
    ensures !Blames(Step(job, p, eligible, i).0)
  {
    hide Decode, Locate, Verify, Project, Rebase, ValidateGroup, CascadeRefused;
  }

  lemma AttemptObeys(job: Job, before: Stage, n: nat, verdicts: seq<Verdict>)
    requires n < |job.diff.operations| && |verdicts| == n + 1 && verdicts[..n] == before.verdicts
    requires verdicts[n] == Attempt(job, before.progress, EligibleAfter(job.diff, before.verdicts), n).0
    ensures ObeysDependencies(job.diff, verdicts, n)
  {
    hide Step;
    StepNeverBlames(job, before.progress, EligibleAfter(job.diff, before.verdicts), n);
  }

  lemma ObeysInPrefix(diff: StateDiff, before: seq<Verdict>, verdicts: seq<Verdict>, i: nat)
    requires before <= verdicts && |verdicts| <= |diff.operations|
    requires i < |before| && ObeysDependencies(diff, before, i)
    ensures ObeysDependencies(diff, verdicts, i)
  {
    assert before[..i] == verdicts[..i];
  }

  lemma {:induction false} RunIsPossible(job: Job, n: nat)
    requires n <= |job.diff.operations|
    ensures Possible(job.diff, RunTo(job, n).verdicts)
  {
    hide Attempt, ObeysDependencies;
    if n > 0 {
      var before := RunTo(job, n - 1);
      RunIsPossible(job, n - 1);
      var verdicts := RunTo(job, n).verdicts;
      assert before.verdicts == verdicts[..n - 1];
      AttemptObeys(job, before, n - 1, verdicts);
      forall i | 0 <= i < n ensures ObeysDependencies(job.diff, verdicts, i) {
        if i < n - 1 {
          ObeysInPrefix(job.diff, before.verdicts, verdicts, i);
        }
      }
    }
  }

  /** An earlier stage is a prefix of a later one. */
  lemma {:induction false} VerdictsGrow(job: Job, m: nat, n: nat)
    requires m <= n <= |job.diff.operations|
    ensures RunTo(job, m).verdicts == RunTo(job, n).verdicts[..m]
    decreases n
  {
    hide Attempt;
    if m < n {
      VerdictsGrow(job, m, n - 1);
    }
  }

  // ---------------------------------------------------------------- dependencies

  /** Operations are unblocked only when everything they depend on is. */
  lemma EligibilityIsClosed(diff: StateDiff, verdicts: seq<Verdict>, i: nat, d: nat)
    requires Possible(diff, verdicts) && i < |verdicts| && verdicts[i].Unblocks()
    requires d in diff.operations[i].dependsOn
    ensures d < i && verdicts[d].Unblocks()
  {
    assert ObeysDependencies(diff, verdicts, i);
    assert !Malformed(diff.operations[i], i);
    assert d !in Blockers(diff.operations[i].dependsOn, EligibleAfter(diff, verdicts[..i]));
  }

  /** A path along dependencies. */
  ghost predicate DependencyPath(diff: StateDiff, path: seq<nat>) {
    && path != []
    && (forall k | 0 <= k < |path| :: path[k] < |diff.operations|)
    && forall k | 0 <= k < |path| - 1 :: path[k + 1] in diff.operations[path[k]].dependsOn
  }

  /** Eligibility is closed under transitive dependencies. */
  lemma {:induction false} EligibilityIsTransitive(diff: StateDiff, verdicts: seq<Verdict>, path: seq<nat>, k: nat)
    requires Possible(diff, verdicts) && DependencyPath(diff, path) && k < |path|
    requires path[0] < |verdicts| && verdicts[path[0]].Unblocks()
    ensures path[k] < |verdicts| && verdicts[path[k]].Unblocks()
  {
    if k > 0 {
      EligibilityIsTransitive(diff, verdicts, path, k - 1);
      EligibilityIsClosed(diff, verdicts, path[k - 1], path[k]);
    }
  }

  /** A path that follows the listed blockers of skipped operations to a failed one. */
  ghost predicate BlameChain(verdicts: seq<Verdict>, path: seq<nat>) {
    && path != []
    && (forall k | 0 <= k < |path| :: path[k] < |verdicts|)
    && (forall k | 0 <= k < |path| - 1 ::
          && Blames(verdicts[path[k]])
          && path[k + 1] in verdicts[path[k]].reason.operations
          && path[k + 1] < path[k])
    && verdicts[path[|path| - 1]].Failed?
  }

  /** A skipped operation lists exactly its blocked dependencies. */
  lemma ListedBlockers(diff: StateDiff, verdicts: seq<Verdict>, i: nat)
    requires Possible(diff, verdicts) && i < |verdicts| && Blames(verdicts[i])
    ensures verdicts[i].reason.operations != []
    ensures forall d :: d in verdicts[i].reason.operations
              <==> d in diff.operations[i].dependsOn && d < i && !verdicts[d].Unblocks()
  {
    assert ObeysDependencies(diff, verdicts, i);
  }

  /** Every dependency-skipped operation reaches a failed one through its listed blockers. */
  lemma {:induction false} SkipsAreBlamedOnFailures(diff: StateDiff, verdicts: seq<Verdict>, i: nat)
    returns (path: seq<nat>)
    requires Possible(diff, verdicts) && i < |verdicts| && !verdicts[i].Unblocks()
    ensures BlameChain(verdicts, path) && path[0] == i
    decreases i
  {
    if verdicts[i].Failed? {
      path := [i];
    } else {
      ListedBlockers(diff, verdicts, i);
      var d := verdicts[i].reason.operations[0];
      assert d in verdicts[i].reason.operations;
      var rest := SkipsAreBlamedOnFailures(diff, verdicts, d);
      path := [i] + rest;
    }
  }

  // ---------------------------------------------------------------- look-ahead

  function Lookahead(diff: StateDiff, verdicts: seq<Verdict>, i: nat, n: nat): (r: seq<bool>)
    requires i < n <= |diff.operations| && i < |verdicts|
    ensures |r| == n
  {
    Runnable(diff, i, EligibleAfter(diff, verdicts[..i]), n)
  }

  lemma LookaheadAt(diff: StateDiff, verdicts: seq<Verdict>, i: nat, n: nat)
    requires i + 1 < n <= |diff.operations| && i < |verdicts|
    ensures var earlier := Lookahead(diff, verdicts, i, n - 1);
            && Lookahead(diff, verdicts, i, n)[..n - 1] == earlier
            && (Lookahead(diff, verdicts, i, n)[n - 1]
                <==> AllHold(diff.operations[n - 1].dependsOn, earlier))
  {
  }

  /**
   The look-ahead is sound: taken at an operation that succeeds, it allows every
   operation that ends up eligible.
   */
  lemma {:induction false} LookaheadCoversEligible(diff: StateDiff, verdicts: seq<Verdict>, i: nat, n: nat, j: nat)
    requires Possible(diff, verdicts) && i < n <= |verdicts| && j < n
    requires verdicts[i].Unblocks() && verdicts[j].Unblocks()
    ensures Lookahead(diff, verdicts, i, n)[j]
    decreases n
  {
    if n > i + 1 {
      LookaheadAt(diff, verdicts, i, n);
      if j < n - 1 {
        LookaheadCoversEligible(diff, verdicts, i, n - 1, j);
      } else {
        forall d | d in diff.operations[j].dependsOn
          ensures d < j && Lookahead(diff, verdicts, i, n - 1)[d]
        {
          EligibilityIsClosed(diff, verdicts, j, d);
          LookaheadCoversEligible(diff, verdicts, i, n - 1, d);
        }
      }
    }
  }

  /** No operation from i on fails once it is attempted. */
  ghost predicate NoAttemptFailsFrom(diff: StateDiff, verdicts: seq<Verdict>, i: nat)
    requires |verdicts| <= |diff.operations|
  {
    forall j | i <= j < |verdicts| :: verdicts[j].Failed? ==> Malformed(diff.operations[j], j)
  }

  /** An operation whose dependencies are all unblocked is attempted, so it unblocks too. */
  lemma UnblockedByDependencies(diff: StateDiff, verdicts: seq<Verdict>, i: nat, j: nat)
    requires Possible(diff, verdicts) && i <= j < |verdicts| && NoAttemptFailsFrom(diff, verdicts, i)
    requires forall d | d in diff.operations[j].dependsOn :: d < j && verdicts[d].Unblocks()
    ensures verdicts[j].Unblocks()
  {
    assert ObeysDependencies(diff, verdicts, j);
    NoBlockers(diff.operations[j].dependsOn, EligibleAfter(diff, verdicts[..j]));
  }

  lemma NoBlockers(dependsOn: seq<nat>, eligible: seq<bool>)
    requires AllHold(dependsOn, eligible)
    ensures Blockers(dependsOn, eligible) == []
  {
  }

  /** The look-ahead is exact when no later attempt fails. */
  lemma {:induction false} LookaheadIsExact(diff: StateDiff, verdicts: seq<Verdict>, i: nat, n: nat, j: nat)
    requires Possible(diff, verdicts) && i < n <= |verdicts| && j < n
    requires verdicts[i].Unblocks() && NoAttemptFailsFrom(diff, verdicts, i)
    ensures Lookahead(diff, verdicts, i, n)[j] <==> verdicts[j].Unblocks()
    decreases n
  {
    if verdicts[j].Unblocks() {
      LookaheadCoversEligible(diff, verdicts, i, n, j);
    }
    if n > i + 1 {
      LookaheadAt(diff, verdicts, i, n);
      if j < n - 1 {
        LookaheadIsExact(diff, verdicts, i, n - 1, j);
      } else if Lookahead(diff, verdicts, i, n)[j] {
        forall d | d in diff.operations[j].dependsOn ensures d < j && verdicts[d].Unblocks() {
          assert d < j && Lookahead(diff, verdicts, i, n - 1)[d];
          LookaheadIsExact(diff, verdicts, i, n - 1, d);
        }
        UnblockedByDependencies(diff, verdicts, i, j);
      }
    }
  }

  lemma {:induction false} LookaheadGrows(diff: StateDiff, verdicts: seq<Verdict>, i: nat, m: nat, n: nat)
    requires i < m <= n <= |diff.operations| && i < |verdicts|
    ensures Lookahead(diff, verdicts, i, n)[..m] == Lookahead(diff, verdicts, i, m)
    decreases n
  {
    if m < n {
      LookaheadAt(diff, verdicts, i, n);
      LookaheadGrows(diff, verdicts, i, m, n - 1);
    }
  }

  /** An operation that is attempted was predicted runnable, whatever becomes of it. */
  lemma AttemptedWasPredicted(diff: StateDiff, verdicts: seq<Verdict>, i: nat, j: nat)
    requires Possible(diff, verdicts) && i < j < |verdicts| && verdicts[i].Unblocks()
    requires verdicts[j].Failed? && !Malformed(diff.operations[j], j)
    ensures Lookahead(diff, verdicts, i, |verdicts|)[j]
  {
    assert ObeysDependencies(diff, verdicts, j);
    var dependsOn, eligible := diff.operations[j].dependsOn, EligibleAfter(diff, verdicts[..j]);
    forall d | d in dependsOn ensures d < j && Lookahead(diff, verdicts, i, j)[d] {
      assert d !in Blockers(dependsOn, eligible);
      LookaheadCoversEligible(diff, verdicts, i, j, d);
    }
    LookaheadAt(diff, verdicts, i, j + 1);
    LookaheadGrows(diff, verdicts, i, j + 1, |verdicts|);
    assert Lookahead(diff, verdicts, i, |verdicts|)[j] == Lookahead(diff, verdicts, i, |verdicts|)[..j + 1][j];
  }

  /** Predicted and final eligibility coincide exactly when no attempt from there on fails. */
  lemma LookaheadIsExactIffNothingFails(diff: StateDiff, verdicts: seq<Verdict>, i: nat)
    requires Possible(diff, verdicts) && i < |verdicts| && verdicts[i].Unblocks()
    ensures (forall j | 0 <= j < |verdicts| :: Lookahead(diff, verdicts, i, |verdicts|)[j] <==> verdicts[j].Unblocks())
       <==> NoAttemptFailsFrom(diff, verdicts, i)
  {
    hide ObeysDependencies, Malformed;
    if NoAttemptFailsFrom(diff, verdicts, i) {
      forall j | 0 <= j < |verdicts| ensures Lookahead(diff, verdicts, i, |verdicts|)[j] <==> verdicts[j].Unblocks() {
        LookaheadIsExact(diff, verdicts, i, |verdicts|, j);
      }
    } else {
      var j :| i <= j < |verdicts| && verdicts[j].Failed? && !Malformed(diff.operations[j], j);
      AttemptedWasPredicted(diff, verdicts, i, j);
    }
  }

  /** A later removal of an address that the finished run allowed. */
  ghost predicate RemovedLater(diff: StateDiff, verdicts: seq<Verdict>, i: nat,
                               target: InterfaceId, address: Ipv4Address, position: nat)
    requires |verdicts| == |diff.operations|
  {
    && i < position < |diff.operations|
    && verdicts[position].Unblocks()
    && diff.operations[position].target == target
    && diff.operations[position].kind.RemoveIpv4?
    && address.SameIdentity(diff.operations[position].kind.address)
  }

  /**
   At an operation that succeeds, an address counts as covered whenever a later
   removal of it ends up eligible, and only then if no later attempt fails.
   */
  lemma CoverageMeansRemoval(diff: StateDiff, verdicts: seq<Verdict>, i: nat, target: InterfaceId, address: Ipv4Address)
    requires Possible(diff, verdicts) && i < |verdicts| == |diff.operations| && verdicts[i].Unblocks()
    ensures var covered := RemovalIsCovered(diff, i, target, address, EligibleAfter(diff, verdicts[..i]));
            && ((exists position :: RemovedLater(diff, verdicts, i, target, address, position)) ==> covered)
            && (NoAttemptFailsFrom(diff, verdicts, i) && covered
                ==> exists position :: RemovedLater(diff, verdicts, i, target, address, position))
  {
    var n := |verdicts|;
    if position :| RemovedLater(diff, verdicts, i, target, address, position) {
      LookaheadCoversEligible(diff, verdicts, i, n, position);
    }
    if NoAttemptFailsFrom(diff, verdicts, i)
      && RemovalIsCovered(diff, i, target, address, EligibleAfter(diff, verdicts[..i]))
    {
      var position: nat :| i < position < n
        && Lookahead(diff, verdicts, i, n)[position]
        && diff.operations[position].target == target
        && diff.operations[position].kind.RemoveIpv4?
        && address.SameIdentity(diff.operations[position].kind.address);
      LookaheadIsExact(diff, verdicts, i, n, position);
      assert RemovedLater(diff, verdicts, i, target, address, position);
    }
  }
}
