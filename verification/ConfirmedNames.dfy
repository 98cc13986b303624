/** When a confirmation succeeds, and that the link that answered it bore the target's name (linux.rs). */
module ConfirmedNames {
  import opened Wrappers
  import opened Identity
  import opened IdentityProtocol
  import opened ConfirmedWrites

  // ---------------------------------------------------------------- when a confirmation succeeds

  /** After such an item no stored token is trusted any more. */
  predicate Invalidates(item: Item) {
    item.Unparseable? || item.Overrun? || item.Closed?
  }

  lemma {:induction false} DrainedInvalidation(t: Transport, items: seq<Item>)
    requires !t.notificationsClosed
    ensures Drained(t, items).invalidated <==> t.invalidated || exists item | item in items :: Invalidates(item)
    decreases |items|
  {
    if items != [] {
      var next := Recorded(t, items[0]);
      assert items[0] in items;
      if items[0].Closed? {
        assert Drained(next, items[1..]) == next;
        assert Invalidates(items[0]);
      } else {
        DrainedInvalidation(next, items[1..]);
        assert forall item :: item in items <==> item == items[0] || item in items[1..];
      }
    }
  }

  lemma {:induction false} DrainedToken(t: Transport, items: seq<Item>, index: u32)
    requires !t.notificationsClosed && forall item | item in items :: !Invalidates(item)
    ensures var d := Drained(t, items);
            && (index in d.generations <==> index in t.generations && Deleted(index) !in items)
            && (index in d.generations ==> d.generations[index] == t.generations[index])
    decreases |items|
  {
    if items != [] {
      assert items[0] in items && items == [items[0]] + items[1..];
      assert !Invalidates(items[0]);
      DrainedToken(Recorded(t, items[0]), items[1..], index);
    }
  }

  /** The token is stored for the index, and no notification that has arrived retires it. */
  ghost predicate Current(s: System, index: u32, generation: u64)
    requires Shaped(s)
  {
    && !s.transport.invalidated
    && index in s.transport.generations && s.transport.generations[index] == generation
    && forall m | m in Channel(s) :: !Invalidates(m.item) && m.item != Deleted(index)
  }

  lemma ChannelItems(s: System, item: Item)
    requires Shaped(s)
    ensures item in Items(Channel(s)) <==> exists m | m in Channel(s) :: m.item == item
  {
    var messages, items := Channel(s), Items(Channel(s));
    if item in items {
      var k :| 0 <= k < |items| && items[k] == item;
      assert messages[k] in messages;
    }
    if m :| m in messages && m.item == item {
      var k :| 0 <= k < |messages| && messages[k] == m;
      assert items[k] == item;
    }
  }

  lemma DrainedCurrent(s: System, index: u32, generation: u64)
    requires Inv(s)
    ensures var (drained, ok) := Drain(s);
            (ok && index in drained.transport.generations && drained.transport.generations[index] == generation)
              <==> Current(s, index, generation)
  {
    hide Drained, Pending, ReplySound, PhaseSound, Fated, TokensDistinct, Exposures;
    var t, items := s.transport, Items(Channel(s));
    forall item: Item ensures item in items <==> exists m | m in Channel(s) :: m.item == item {
      ChannelItems(s, item);
    }
    if t.notificationsClosed {
      DrainedClosing(t, items);
    } else {
      DrainedInvalidation(t, items);
      if forall item | item in items :: !Invalidates(item) {
        DrainedToken(t, items, index);
      }
    }
  }

  /**
   A confirmation succeeds exactly if no token was invalidated, the stored token is
   the target's, and the link that answered bears the target's name.
   */
  lemma ConfirmationSucceedsIff(s: System)
    requires Inv(s) && Enabled(s, Conclude)
    ensures var p, next := s.phase, Do(s, Conclude);
            && (next.phase.Confirmed? <==>
                  Current(s, p.index, p.generation) && p.link.Some? && p.link.value.name == p.name)
            && (next.phase.Confirmed? ==>
                  && next.phase == Confirmed(p.index, p.generation)
                  && next.confirmed == s.confirmed + {Exposure(p.index, p.generation, p.link.value.incarnation)})
            && (!next.phase.Confirmed? ==> next.phase.Idle? && next.confirmed == s.confirmed)
  {
    hide Inv, Current, Drain;
    ReachableIsShaped(s);
    DrainedCurrent(s, s.phase.index, s.phase.generation);
    DrainKeepsTheRest(s);
  }

  lemma ReachableIsShaped(s: System)
    requires Inv(s)
    ensures Shaped(s)
  {
  }

  // ---------------------------------------------------------------- who answered

  /** The step leaves an outstanding confirmation alone, or is the one that starts it. */
  lemma ConfirmationsBegin(s: System, step: Step)
    requires Enabled(s, step) && Do(s, step).phase.AwaitConfirm?
    ensures var p := Do(s, step).phase;
            || p == s.phase
            || (step == BeginConfirm(p.index, p.generation, p.name) && p.request == s.requests)
  {
    hide Drain, Returned;
    DrainKeepsTheRest(s);
  }

  /** When an outstanding confirmation was started, and that nothing else was since. */
  lemma {:induction false} BegunAt(states: seq<System>, steps: seq<Step>, k: nat) returns (b: nat)
    requires Behaviour(states, steps) && k < |states| && states[k].phase.AwaitConfirm?
    ensures var p := states[k].phase;
            && b < k
            && steps[b] == BeginConfirm(p.index, p.generation, p.name)
            && p.request == states[b].requests
            && forall j | b < j <= k :: states[j].phase == p
  {
    hide Do, Enabled;
    assert k > 0;
    assert Enabled(states[k - 1], steps[k - 1]) && states[k] == Do(states[k - 1], steps[k - 1]);
    ConfirmationsBegin(states[k - 1], steps[k - 1]);
    if states[k - 1].phase == states[k].phase {
      b := BegunAt(states, steps, k - 1);
    } else {
      b := k - 1;
    }
  }

  lemma RepliesAreServed(s: System, step: Step, m: Message)
    requires Enabled(s, step) && m in Do(s, step).queue && m.LinkReply?
    ensures m in s.queue || (step.Serve? && s.phase.AwaitConfirm? && m == Answer(s))
  {
    hide Drain, Returned;
    DrainKeepsTheRest(s);
    if step.Finish? {
      DrainKeepsTheRest(AfterRetaining(s));
    }
  }

  /** When the kernel sent a reply, and to what. */
  lemma {:induction false} ServedAt(states: seq<System>, steps: seq<Step>, k: nat, m: Message) returns (a: nat)
    requires Behaviour(states, steps) && k < |states| && m in states[k].queue && m.LinkReply?
    ensures a < k && steps[a].Serve? && states[a].phase.AwaitConfirm? && m == Answer(states[a])
  {
    hide Do, Enabled, Answer;
    assert k > 0;
    assert Enabled(states[k - 1], steps[k - 1]) && states[k] == Do(states[k - 1], steps[k - 1]);
    if m in states[k - 1].queue {
      a := ServedAt(states, steps, k - 1, m);
    } else {
      RepliesAreServed(states[k - 1], steps[k - 1], m);
      a := k - 1;
    }
  }

  lemma StepKeepsCounting(s: System, step: Step)
    requires Enabled(s, step)
    ensures Do(s, step).requests >= s.requests
  {
    hide Drain, Returned;
    DrainKeepsTheRest(s);
    if step.Finish? {
      DrainKeepsTheRest(AfterRetaining(s));
    }
  }

  lemma {:induction false} RequestsGrow(states: seq<System>, steps: seq<Step>, j: nat, k: nat)
    requires Behaviour(states, steps) && j <= k < |states|
    ensures states[j].requests <= states[k].requests
    decreases k
  {
    hide Do, Enabled;
    if j < k {
      RequestsGrow(states, steps, j, k - 1);
      assert Enabled(states[k - 1], steps[k - 1]) && states[k] == Do(states[k - 1], steps[k - 1]);
      StepKeepsCounting(states[k - 1], steps[k - 1]);
    }
  }

  /** A reply to the outstanding confirmation was sent while it was outstanding. */
  lemma ReplyIsToThisConfirmation(states: seq<System>, steps: seq<Step>, k: nat, m: Message) returns (b: nat, a: nat)
    requires Behaviour(states, steps) && k < |states| && states[k].phase.AwaitConfirm?
    requires m in states[k].queue && m.LinkReply? && m.request == states[k].phase.request
    ensures var p := states[k].phase;
            && b < a < k
            && steps[b] == BeginConfirm(p.index, p.generation, p.name)
            && steps[a].Serve? && states[a].phase == p
            && m.link == if p.index in states[a].links then Some(states[a].links[p.index]) else None
  {
    hide Do, Enabled, Inv;
    b := BegunAt(states, steps, k);
    a := ServedAt(states, steps, k, m);
    if a <= b {
      BehaviourKeepsInv(states, steps, a);
      RequestsGrow(states, steps, a, b);
      OutstandingIsOld(states[a]);
      assert false;
    }
  }

  lemma OutstandingIsOld(s: System)
    requires Inv(s) && s.phase.AwaitConfirm?
    ensures s.phase.request < s.requests
  {
    hide Pending, ReplySound, Fated, AnswerSound, SnapshotSound;
  }

  lemma AnswersAreDelivered(s: System, step: Step)
    requires Enabled(s, step) && Do(s, step).phase.Answered?
    ensures var p := Do(s, step).phase;
            || p == s.phase
            || (&& step.Deliver? && s.phase.AwaitConfirm? && s.queue[s.arrived].LinkReply?
                && s.queue[s.arrived].request == s.phase.request
                && p == Answered(s.phase.index, s.phase.generation, s.phase.name, s.queue[s.arrived].link))
  {
    hide Drain, Returned;
    DrainKeepsTheRest(s);
  }

  /** Who answered a confirmation, and what it was asked for. */
  lemma {:induction false} AnsweredBy(states: seq<System>, steps: seq<Step>, k: nat) returns (b: nat, a: nat)
    requires Behaviour(states, steps) && k < |states| && states[k].phase.Answered?
    ensures var p := states[k].phase;
            && b < a < k
            && steps[b] == BeginConfirm(p.index, p.generation, p.name)
            && steps[a].Serve?
            && p.link == if p.index in states[a].links then Some(states[a].links[p.index]) else None
  {
    hide Do, Enabled;
    assert k > 0;
    var before := states[k - 1];
    assert Enabled(before, steps[k - 1]) && states[k] == Do(before, steps[k - 1]);
    AnswersAreDelivered(before, steps[k - 1]);
    if before.phase == states[k].phase {
      b, a := AnsweredBy(states, steps, k - 1);
    } else {
      DeliversFromQueue(before);
      b, a := ReplyIsToThisConfirmation(states, steps, k - 1, before.queue[before.arrived]);
    }
  }

  lemma DeliversFromQueue(s: System)
    requires Enabled(s, Deliver)
    ensures s.arrived < |s.queue| && s.queue[s.arrived] in s.queue
  {
  }

  /**
   In every behaviour, a confirmation that succeeds was asked for a target (step b)
   whose name was borne by the link that answered (step a), and that link is the
   incarnation recorded as confirmed.
   */
  lemma ConfirmedLinkBearsTheName(states: seq<System>, steps: seq<Step>, k: nat) returns (b: nat, a: nat)
    requires Behaviour(states, steps) && k < |steps| && steps[k].Conclude? && states[k + 1].phase.Confirmed?
    ensures var index, generation := states[k + 1].phase.index, states[k + 1].phase.generation;
            && b < a < k
            && steps[b].BeginConfirm? && steps[b].index == index && steps[b].generation == generation
            && steps[a].Serve? && index in states[a].links
            && states[a].links[index].name == steps[b].name
            && Exposure(index, generation, states[a].links[index].incarnation) in states[k + 1].confirmed
  {
    hide Do, Enabled, Inv, Current;
    assert Enabled(states[k], steps[k]) && states[k + 1] == Do(states[k], steps[k]);
    BehaviourKeepsInv(states, steps, k);
    ConcludesAnswered(states[k]);
    ConfirmationSucceedsIff(states[k]);
    b, a := AnsweredBy(states, steps, k);
  }

  lemma ConcludesAnswered(s: System)
    requires Enabled(s, Conclude)
    ensures s.phase.Answered? && Shaped(s)
  {
  }
}
