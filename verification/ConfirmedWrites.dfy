/** Which link a confirmed write reaches, and what later inventories tell about it (linux.rs). */
module ConfirmedWrites {
  import opened Wrappers
  import opened IdentityProtocol

  // ---------------------------------------------------------------- writes are confirmed, answers follow them

  ghost predicate WasConfirmed(s: System, index: u32, generation: u64) {
    exists c | c in s.confirmed :: c.index == index && c.generation == generation
  }

  ghost predicate HasLanded(s: System, request: nat) {
    exists l | l in s.landed :: l.write.request == request
  }

  /** Every write was confirmed first, its request is its own, and it is answered only after it landed. */
  ghost predicate Accounted(s: System) {
    && (s.phase.Confirmed? ==> WasConfirmed(s, s.phase.index, s.phase.generation))
    && (forall w | w in s.sent :: WasConfirmed(s, w.index, w.generation))
    && (forall l | l in s.landed :: WasConfirmed(s, l.write.index, l.write.generation) && l.write.request < s.requests)
    && (forall m | m in s.queue && m.WriteReply? :: HasLanded(s, m.request))
    && (s.phase.AwaitWrite? ==>
          && (forall w | w in s.sent && w.request == s.phase.request :: Serves(w, s.phase))
          && (forall l | l in s.landed && l.write.request == s.phase.request :: Serves(l.write, s.phase)))
  }

  /** The write is the one the transport waits for. */
  predicate Serves(write: Write, phase: Phase)
    requires phase.AwaitWrite?
  {
    write == Write(phase.request, phase.index, phase.generation)
  }

  lemma DrainKeepsTheRest(s: System)
    requires Shaped(s)
    ensures var d := Drain(s).0;
            d == s.(queue := s.queue[s.arrived..], arrived := 0, transport := d.transport, recorded := d.recorded)
  {
  }

  /** Steps that neither confirm, submit nor carry out a write leave the account as it is. */
  lemma AccountKept(s: System, next: System)
    requires Accounted(s) && next.sent == s.sent && next.landed == s.landed && next.confirmed == s.confirmed
    requires next.requests >= s.requests && (forall m | m in next.queue && m.WriteReply? :: m in s.queue)
    requires next.phase == s.phase || !(next.phase.Confirmed? || next.phase.AwaitWrite?)
    ensures Accounted(next)
  {
    assert forall i, g :: WasConfirmed(s, i, g) ==> WasConfirmed(next, i, g);
    assert forall r :: HasLanded(s, r) ==> HasLanded(next, r);
  }

  lemma SubmissionIsAccounted(s: System)
    requires Inv(s) && Accounted(s) && Enabled(s, SubmitWrite)
    ensures Accounted(Do(s, SubmitWrite))
  {
    hide Drain, Pending, ReplySound, PhaseSound, Fated;
    DrainKeepsTheRest(s);
    var next := Do(s, SubmitWrite);
    assert forall i, g :: WasConfirmed(s, i, g) ==> WasConfirmed(next, i, g);
    assert forall r :: HasLanded(s, r) ==> HasLanded(next, r);
  }

  lemma LandingIsAccounted(s: System, write: Write)
    requires Inv(s) && Accounted(s) && Enabled(s, Land(write))
    ensures Accounted(Do(s, Land(write)))
  {
    hide Drain, Pending, ReplySound, PhaseSound, Fated;
    var next := Do(s, Land(write));
    assert LandingOf(s, write) in next.landed;
    assert forall i, g :: WasConfirmed(s, i, g) ==> WasConfirmed(next, i, g);
    forall r | HasLanded(s, r) ensures HasLanded(next, r) {
      var l :| l in s.landed && l.write.request == r;
      assert l in next.landed;
    }
  }

  lemma ConfirmationIsAccounted(s: System)
    requires Accounted(s) && Enabled(s, Conclude)
    ensures Accounted(Do(s, Conclude))
  {
    hide Drain;
    DrainKeepsTheRest(s);
    var next := Do(s, Conclude);
    if next.phase.Confirmed? {
      var link := s.phase.link.value;
      assert Exposure(s.phase.index, s.phase.generation, link.incarnation) in next.confirmed;
      forall i, g | WasConfirmed(s, i, g) ensures WasConfirmed(next, i, g) {
        var c :| c in s.confirmed && c.index == i && c.generation == g;
        assert c in next.confirmed;
      }
      assert forall r :: HasLanded(s, r) ==> HasLanded(next, r);
    } else {
      AccountKept(s, next);
    }
  }

  predicate OfKernel(step: Step) {
    || step.Create? || step.Delete? || step.Rename? || step.Mention?
    || step.Serve? || step.Forward? || step.Deliver? || step.Close?
  }

  lemma KernelKeepsAccount(s: System, step: Step)
    requires Accounted(s) && Enabled(s, step) && OfKernel(step)
    ensures Accounted(Do(s, step))
  {
    hide Accounted, FreshTokens;
    if step.Deliver? {
      DeliveryKeepsReplies(s);
    } else {
      KernelAddsNoReply(s, step);
    }
    hide Do, Enabled;
    AccountKept(s, Do(s, step));
  }

  lemma DeliveryKeepsReplies(s: System)
    requires Enabled(s, Deliver)
    ensures var next := Do(s, Deliver);
            && next.sent == s.sent && next.landed == s.landed && next.confirmed == s.confirmed
            && next.requests == s.requests && (forall m | m in next.queue :: m in s.queue)
            && (next.phase == s.phase || !(next.phase.Confirmed? || next.phase.AwaitWrite?))
  {
  }

  lemma KernelAddsNoReply(s: System, step: Step)
    requires Enabled(s, step) && OfKernel(step) && !step.Deliver?
    ensures var next := Do(s, step);
            && next.sent == s.sent && next.landed == s.landed && next.confirmed == s.confirmed
            && next.requests == s.requests && (forall m | m in next.queue && m.WriteReply? :: m in s.queue)
            && next.phase == s.phase
  {
  }

  lemma TransportKeepsAccount(s: System, step: Step)
    requires Accounted(s) && Enabled(s, step)
    requires !OfKernel(step) && !step.SubmitWrite? && !step.Land? && !step.Conclude?
    ensures Accounted(Do(s, step))
  {
    hide Accounted, Drain, Returned;
    DrainKeepsTheRest(s);
    if step.Finish? {
      DrainKeepsTheRest(AfterRetaining(s));
    }
    AccountKept(s, Do(s, step));
  }

  lemma StepKeepsAccount(s: System, step: Step)
    requires Inv(s) && Accounted(s) && Enabled(s, step)
    ensures Accounted(Do(s, step))
  {
    hide Inv, Accounted, Do, Enabled;
    match step {
      case SubmitWrite => SubmissionIsAccounted(s);
      case Land(write) => LandingIsAccounted(s, write);
      case Conclude => ConfirmationIsAccounted(s);
      case _ => if OfKernel(step) { KernelKeepsAccount(s, step); } else { TransportKeepsAccount(s, step); }
    }
  }

  lemma {:induction false} BehaviourKeepsAccount(states: seq<System>, steps: seq<Step>, k: nat)
    requires Behaviour(states, steps) && k < |states|
    ensures Accounted(states[k])
  {
    hide Inv, Accounted, Do, Enabled;
    if k == 0 {
      InitiallyAccounted();
    } else {
      BehaviourKeepsAccount(states, steps, k - 1);
      BehaviourKeepsInv(states, steps, k - 1);
      StepKeepsAccount(states[k - 1], steps[k - 1]);
    }
  }

  lemma InitiallyAccounted()
    ensures Accounted(INITIAL)
  {
  }

  // ---------------------------------------------------------------- incarnations are born once

  ghost predicate BornLinks(links: map<u32, Link>, incarnations: nat) {
    forall i | i in links :: links[i].incarnation < incarnations
  }

  /** No link, dump or exposure shows an incarnation that is yet to come. */
  ghost predicate Born(s: System) {
    && BornLinks(s.links, s.incarnations)
    && (forall e | e in s.exposed :: e.incarnation < s.incarnations)
    && (forall m | m in s.queue && m.LinkDump? :: BornLinks(m.links, s.incarnations))
    && (s.phase.Inventory() ==> BornLinks(s.phase.links, s.incarnations))
  }

  /** No new dump arrives, and the inventory under way remembers the same one. */
  ghost predicate SameDumps(s: System, next: System) {
    && (forall m | m in next.queue && m.LinkDump? :: m in s.queue)
    && (next.phase.AwaitLinks? ==> next.phase == s.phase)
    && (next.phase.Inventory() ==> s.phase.Inventory() && next.phase.links == s.phase.links)
  }

  lemma KernelKeepsDumps(s: System, step: Step)
    requires Enabled(s, step) && OfKernel(step) && !step.Serve? && !step.Deliver?
    ensures SameDumps(s, Do(s, step))
  {
  }

  lemma TransportKeepsDumps(s: System, step: Step)
    requires Enabled(s, step) && !OfKernel(step) && !step.RequestLinks?
    ensures SameDumps(s, Do(s, step))
    ensures Do(s, step).links == s.links && Do(s, step).incarnations == s.incarnations
    ensures !step.Finish? ==> Do(s, step).exposed == s.exposed
  {
    hide Drain, Returned;
    DrainKeepsTheRest(s);
    if step.Finish? {
      DrainKeepsTheRest(AfterRetaining(s));
    }
  }

  lemma KernelKeepsBorn(s: System, step: Step)
    requires Born(s) && Enabled(s, step) && OfKernel(step)
    ensures Born(Do(s, step)) && Do(s, step).incarnations >= s.incarnations
  {
    if step.Deliver? {
      assert s.queue[s.arrived] in s.queue;
    }
  }

  lemma RequestKeepsBorn(s: System)
    requires Born(s) && Enabled(s, RequestLinks)
    ensures Born(Do(s, RequestLinks)) && Do(s, RequestLinks).incarnations == s.incarnations
  {
    hide Drain;
    DrainKeepsTheRest(s);
  }

  lemma FinishKeepsBorn(s: System)
    requires Born(s) && Enabled(s, Finish)
    ensures Born(Do(s, Finish)) && Do(s, Finish).incarnations == s.incarnations
  {
    hide Drain, StillAssigned;
    DrainKeepsTheRest(AfterRetaining(s));
    assert forall e | e in Returned(s) :: e.incarnation < s.incarnations;
  }

  lemma StepKeepsBorn(s: System, step: Step)
    requires Born(s) && Enabled(s, step)
    ensures Born(Do(s, step)) && Do(s, step).incarnations >= s.incarnations
  {
    hide Do, Enabled, BornLinks;
    match step {
      case Finish => FinishKeepsBorn(s);
      case RequestLinks => RequestKeepsBorn(s);
      case _ => if OfKernel(step) { KernelKeepsBorn(s, step); } else { TransportKeepsDumps(s, step); }
    }
  }

  lemma {:induction false} BehaviourIsBorn(states: seq<System>, steps: seq<Step>, k: nat)
    requires Behaviour(states, steps) && k < |states|
    ensures Born(states[k])
  {
    hide Born, Do, Enabled;
    if k == 0 {
      InitiallyBorn();
    } else {
      BehaviourIsBorn(states, steps, k - 1);
      StepKeepsBorn(states[k - 1], steps[k - 1]);
    }
  }

  lemma InitiallyBorn()
    ensures Born(INITIAL)
  {
  }

  // ---------------------------------------------------------------- incarnations that are gone

  ghost predicate Gone(s: System, e: Exposure) {
    e.incarnation < s.incarnations && !Alive(s, e.index, e.incarnation)
  }

  lemma StepKeepsGone(s: System, step: Step, e: Exposure)
    requires Gone(s, e) && Enabled(s, step)
    ensures Gone(Do(s, step), e)
  {
    hide Drain, Returned;
    DrainKeepsTheRest(s);
    if step.Finish? {
      DrainKeepsTheRest(AfterRetaining(s));
    }
  }

  lemma {:induction false} GoneForGood(states: seq<System>, steps: seq<Step>, j: nat, k: nat, e: Exposure)
    requires Behaviour(states, steps) && j <= k < |states| && Gone(states[j], e)
    ensures Gone(states[k], e)
    decreases k
  {
    hide Gone, Do, Enabled;
    if j < k {
      GoneForGood(states, steps, j, k - 1, e);
      StepKeepsGone(states[k - 1], steps[k - 1], e);
    }
  }

  /** The inventory under way, if there is one, does not see the incarnation. */
  ghost predicate Unseen(s: System, e: Exposure) {
    && (s.phase.AwaitLinks? ==>
          forall m | m in s.queue && m.LinkDump? && m.request == s.phase.request :: !Shows(m.links, e))
    && (s.phase.Inventory() ==> !Shows(s.phase.links, e))
  }

  lemma ServingKeepsUnseen(s: System, e: Exposure)
    requires Gone(s, e) && Unseen(s, e) && Enabled(s, Serve)
    ensures Unseen(Do(s, Serve), e)
  {
  }

  lemma DeliveryKeepsUnseen(s: System, e: Exposure)
    requires Unseen(s, e) && Enabled(s, Deliver)
    ensures Unseen(Do(s, Deliver), e)
  {
    hide Shows;
    assert s.queue[s.arrived] in s.queue;
  }

  lemma RequestKeepsUnseen(s: System, e: Exposure)
    requires Inv(s) && Enabled(s, RequestLinks)
    ensures Unseen(Do(s, RequestLinks), e)
  {
    hide Drain, Shows, ReplySound, PhaseSound, Fated, Pending;
    DrainKeepsTheRest(s);
    RepliesAreOld(s, Drain(s).0);
  }

  lemma StepKeepsUnseen(s: System, step: Step, e: Exposure)
    requires Inv(s) && Gone(s, e) && Unseen(s, e) && Enabled(s, step)
    ensures Unseen(Do(s, step), e)
  {
    hide Inv, Gone, Shows, Do, Enabled;
    match step {
      case Serve => ServingKeepsUnseen(s, e);
      case Deliver => DeliveryKeepsUnseen(s, e);
      case RequestLinks => RequestKeepsUnseen(s, e);
      case _ => if OfKernel(step) { KernelKeepsDumps(s, step); } else { TransportKeepsDumps(s, step); }
    }
  }

  lemma {:induction false} UnseenUntil(states: seq<System>, steps: seq<Step>, j: nat, k: nat, e: Exposure)
    requires Behaviour(states, steps) && j <= k < |states| && Gone(states[j], e) && Unseen(states[j], e)
    ensures Unseen(states[k], e)
    decreases k
  {
    hide Gone, Unseen, Inv, Do, Enabled;
    if j < k {
      UnseenUntil(states, steps, j, k - 1, e);
      GoneForGood(states, steps, j, k - 1, e);
      BehaviourKeepsInv(states, steps, k - 1);
      StepKeepsUnseen(states[k - 1], steps[k - 1], e);
    }
  }

  // ---------------------------------------------------------------- histories

  lemma StepKeepsHistory(s: System, step: Step)
    requires Enabled(s, step)
    ensures s.exposed <= Do(s, step).exposed && s.confirmed <= Do(s, step).confirmed && s.landed <= Do(s, step).landed
    ensures !step.Land? ==> Do(s, step).landed == s.landed
  {
    hide Drain, Returned;
    DrainKeepsTheRest(s);
    if step.Finish? {
      DrainKeepsTheRest(AfterRetaining(s));
    }
  }

  lemma {:induction false} HistoryGrows(states: seq<System>, steps: seq<Step>, j: nat, k: nat)
    requires Behaviour(states, steps) && j <= k < |states|
    ensures states[j].exposed <= states[k].exposed && states[j].confirmed <= states[k].confirmed
    ensures states[j].landed <= states[k].landed
    decreases k
  {
    hide Do, Enabled;
    if j < k {
      HistoryGrows(states, steps, j, k - 1);
      StepKeepsHistory(states[k - 1], steps[k - 1]);
    }
  }

  /** When a write was carried out, and what it was addressed to then. */
  lemma {:induction false} LandedAt(states: seq<System>, steps: seq<Step>, k: nat, l: Landing) returns (i: nat)
    requires Behaviour(states, steps) && k < |states| && l in states[k].landed
    ensures i < k && steps[i] == Land(l.write) && l == LandingOf(states[i], l.write)
    decreases k
  {
    hide Enabled;
    assert k > 0;
    if l in states[k - 1].landed {
      i := LandedAt(states, steps, k - 1, l);
    } else {
      StepKeepsHistory(states[k - 1], steps[k - 1]);
      i := k - 1;
      assert states[k] == Do(states[i], steps[i]);
    }
  }

  lemma SentTarget(s: System, write: Write) returns (c: Exposure)
    requires Inv(s) && Accounted(s) && Born(s) && Enabled(s, Land(write))
    ensures c in s.confirmed && c in s.exposed && c.incarnation < s.incarnations
    ensures c.index == write.index && c.generation == write.generation
  {
    hide ReplySound, PhaseSound, Fated, Pending;
    assert WasConfirmed(s, write.index, write.generation);
    c :| c in s.confirmed && c.index == write.index && c.generation == write.generation;
  }

  lemma ReachesTheLiving(s: System, write: Write, c: Exposure)
    requires c.index == write.index
    ensures LandingOf(s, write).reached == Some(c.incarnation) <==> Alive(s, c.index, c.incarnation)
  {
  }

  // ---------------------------------------------------------------- the laws of confirmed writes

  /**
   Every write that was carried out was confirmed before, and it reached the
   confirmed incarnation exactly when that was alive at the moment.
   */
  lemma WritesReachTheLiving(states: seq<System>, steps: seq<Step>, k: nat, l: Landing) returns (i: nat, c: Exposure)
    requires Behaviour(states, steps) && k < |states| && l in states[k].landed
    ensures i < k && steps[i] == Land(l.write)
    ensures c in states[i].confirmed && c.index == l.write.index && c.generation == l.write.generation
    ensures l.reached == Some(c.incarnation) <==> Alive(states[i], c.index, c.incarnation)
    ensures c in states[i].exposed && c.incarnation < states[i].incarnations
  {
    hide Inv, Accounted, Born, Do, Enabled, LandingOf;
    i := LandedAt(states, steps, k, l);
    BehaviourKeepsAccount(states, steps, i);
    BehaviourIsBorn(states, steps, i);
    BehaviourKeepsInv(states, steps, i);
    assert Enabled(states[i], steps[i]);
    c := SentTarget(states[i], l.write);
    ReachesTheLiving(states[i], l.write, c);
  }

  /** A write that is answered has been carried out, for the link and token it was confirmed for. */
  lemma AnsweredWritesLanded(states: seq<System>, steps: seq<Step>, k: nat) returns (l: Landing)
    requires Behaviour(states, steps) && k < |steps|
    requires steps[k].Deliver? && states[k].phase.AwaitWrite? && states[k + 1].phase.Idle?
    ensures l in states[k].landed && Serves(l.write, states[k].phase)
  {
    BehaviourKeepsAccount(states, steps, k);
    var s := states[k];
    assert Enabled(s, steps[k]) && states[k + 1] == Do(s, steps[k]);
    var m := s.queue[s.arrived];
    assert m.WriteReply? && m.request == s.phase.request;
    assert m in s.queue;
    assert HasLanded(s, m.request);
    l :| l in s.landed && l.write.request == m.request;
  }

  /**
   Although nothing looks at the token between the confirmation and the write, every
   write that was carried out reached the confirmed incarnation, or from then on that
   incarnation's token is out of use or its retirement is on its way.
   */
  lemma WritesReachOrRetire(states: seq<System>, steps: seq<Step>, k: nat, l: Landing) returns (c: Exposure)
    requires Behaviour(states, steps) && k < |states| && l in states[k].landed
    ensures c in states[k].confirmed && c.index == l.write.index && c.generation == l.write.generation
    ensures || l.reached == Some(c.incarnation)
            || !Bound(states[k], c)
            || Pending(states[k].queue, c.index)
  {
    hide Inv, Pending, Do, Enabled;
    var i: nat;
    i, c := WritesReachTheLiving(states, steps, k, l);
    HistoryGrows(states, steps, i, k);
    if l.reached != Some(c.incarnation) {
      GoneForGood(states, steps, i, k, c);
      BehaviourKeepsInv(states, steps, k);
      if Bound(states[k], c) {
        GoneIsFated(states[k], c);
      }
    }
  }

  lemma GoneIsFated(s: System, c: Exposure)
    requires Inv(s) && Gone(s, c) && Bound(s, c)
    ensures Pending(s.queue, c.index)
  {
    hide ReplySound, PhaseSound, Pending;
  }

  /**
   An inventory that begins after a write was carried out and returns the write's
   token proves that the write reached the incarnation the inventory shows. So the
   token of a write that missed is never returned again.
   */
  lemma ReturnedTokensWereReached(states: seq<System>, steps: seq<Step>, j: nat, k: nat, l: Landing, e: Exposure)
    requires Behaviour(states, steps) && j <= k < |steps|
    requires l in states[j].landed && states[j].phase.Idle?
    requires steps[k].Finish? && Enabled(states[k], Finish) && e in Returned(states[k])
    requires e.generation == l.write.generation
    ensures e.index == l.write.index && l.reached == Some(e.incarnation)
  {
    hide Inv, Enabled, Drain, StillAssigned;
    var i, c := WritesReachTheLiving(states, steps, j, l);
    assert states[k + 1] == Do(states[k], steps[k]);
    assert e in states[k + 1].exposed;
    HistoryGrows(states, steps, i, k + 1);
    TokensNeverAlias(states, steps, k + 1, c, e);
    if l.reached != Some(c.incarnation) {
      GoneForGood(states, steps, i, j, c);
      UnseenUntil(states, steps, j, k, c);
      ReturnedIsShown(states[k], e);
    }
  }

  lemma ReturnedIsShown(s: System, e: Exposure)
    requires Enabled(s, Finish) && e in Returned(s)
    ensures s.phase.Inventory() && Shows(s.phase.links, e)
  {
    hide Drain, StillAssigned;
  }
}
